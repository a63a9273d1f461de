/** The arrival resolver: the next departure after a given time of day, and
    the number of minutes until it. */
module Arrival {
  import opened DayTimes
  import opened Schedules

  /** Entry i is the first one, in table order, that is strictly later than now. */
  predicate IsFirstLater(table: seq<DayTime>, now: DayTime, i: int) {
    0 <= i < |table| && Less(now, table[i]) &&
    forall j :: 0 <= j < i ==> !Less(now, table[j])
  }

  /** No entry of the table is strictly later than now. */
  predicate NoneLater(table: seq<DayTime>, now: DayTime) {
    forall j :: 0 <= j < |table| ==> !Less(now, table[j])
  }

  /** Position of the first entry strictly later than now, |table| if none. */
  function FirstLaterIndex(table: seq<DayTime>, now: DayTime): (k: nat)
    ensures k <= |table|
    ensures forall j :: 0 <= j < k ==> !Less(now, table[j])
    ensures k < |table| ==> Less(now, table[k])
  {
    if |table| == 0 then 0
    else if Compare(table[0], now) > 0 then 0
    else 1 + FirstLaterIndex(table[1..], now)
  }

  /** What the scan returns: the first entry strictly later than now, or,
      when there is none, the table's first entry tomorrow. */
  function ArrivalAfter(table: seq<DayTime>, now: DayTime): (r: DayTime)
    requires |table| > 0
    ensures !NoneLater(table, now) ==> exists i :: IsFirstLater(table, now, i) && r == table[i]
    ensures NoneLater(table, now) ==> r == DayTime(table[0].hour + 24, table[0].minute)
  {
    var k := FirstLaterIndex(table, now);
    if k < |table| then table[k] else Tomorrow(table[0])
  }

  /** The calendar distance in minutes from now to next. */
  function MinutesBetween(now: DayTime, next: DayTime): int {
    MinutesOf(next) - MinutesOf(now)
  }

  /** The linear scan over the timetable, returning early on the first entry
      later than now; otherwise the first entry with its hour moved by a day. */
  method NextArrival(table: seq<DayTime>, now: DayTime) returns (a: DayTime)
    requires |table| > 0
    ensures a == ArrivalAfter(table, now)
  {
    for i := 0 to |table|
      invariant forall j :: 0 <= j < i ==> !Less(now, table[j])
    {
      if Compare(table[i], now) > 0 {
        FirstLaterIsArrival(table, now, i);
        return table[i];
      }
    }
    a := table[0];
    a := a.(hour := a.hour + 24);
  }

  /** Minute subtraction with a borrow: when next's minute is below now's,
      sixty minutes are added and one hour is taken off the hour difference.
      The borrow never changes the total. */
  method MinutesDifference(next: DayTime, now: DayTime) returns (mins: int)
    ensures mins == MinutesOf(next) - MinutesOf(now)
    ensures Less(now, next) && 0 <= now.minute < 60 && 0 <= next.minute < 60 ==> mins >= 1
  {
    mins := next.minute - now.minute;
    var carry := 0;
    if mins < 0 {
      mins := mins + 60;
      carry := 1;
    }
    mins := mins + (next.hour - now.hour - carry) * 60;
    if Less(now, next) && 0 <= now.minute < 60 && 0 <= next.minute < 60 {
      LessMatchesMinutes(now, next);
    }
  }

  /** The scan's answer is determined by the first match: an entry that is
      later than now with no later entry before it is what is returned. */
  lemma FirstLaterIsArrival(table: seq<DayTime>, now: DayTime, i: int)
    requires IsFirstLater(table, now, i)
    ensures ArrivalAfter(table, now) == table[i]
  {
  }

  /** When nothing in the table is later than now, the scan wraps. */
  lemma NoneLaterWraps(table: seq<DayTime>, now: DayTime)
    requires |table| > 0 && NoneLater(table, now)
    ensures ArrivalAfter(table, now) == DayTime(table[0].hour + 24, table[0].minute)
  {
  }

  /** For a usable table and a wall-clock now, the arrival is strictly later
      than now, and at most one day away. Table order does not matter. */
  lemma ArrivalWithinADay(table: seq<DayTime>, now: DayTime)
    requires ValidTable(table) && ValidTime(now)
    ensures Less(now, ArrivalAfter(table, now))
    ensures 1 <= MinutesBetween(now, ArrivalAfter(table, now)) <= 1440
  {
    var r := ArrivalAfter(table, now);
    if NoneLater(table, now) {
      assert !Less(now, table[0]);
      LessMatchesMinutes(now, table[0]);
    } else {
      var i :| IsFirstLater(table, now, i) && r == table[i];
      assert ValidTime(table[i]);
      LessMatchesMinutes(now, table[i]);
    }
  }

  /** Asking at the very minute of a departure never returns that
      departure: the comparison is strict. */
  lemma ExactMatchSkipped(table: seq<DayTime>, k: int)
    requires ValidTable(table) && 0 <= k < |table|
    ensures ArrivalAfter(table, table[k]) != table[k]
  {
    var now := table[k];
    if NoneLater(table, now) {
      assert ValidTime(table[0]) && ValidTime(now);
    }
  }

  /** In an ascending table, asking at the time of a departure that is not
      the last returns the departure right after it. */
  lemma SortedAtDepartureTakesNext(table: seq<DayTime>, k: int)
    requires |table| > 0 && Sorted(table) && 0 <= k && k + 1 < |table|
    ensures ArrivalAfter(table, table[k]) == table[k + 1]
  {
    forall j | 0 <= j <= k ensures !Less(table[k], table[j]) {
      if j < k {
        assert Less(table[j], table[k]);
      }
    }
    FirstLaterIsArrival(table, table[k], k + 1);
  }

  /** Any time lexicographically below the table's first entry is never
      returned: to reach a later position the scan must have found the first
      entry not later than now, and a wrapped entry is a day late. */
  lemma BelowHeadNeverReturned(table: seq<DayTime>, now: DayTime, v: DayTime)
    requires |table| > 0 && Less(v, table[0])
    ensures ArrivalAfter(table, now) != v
  {
    var r := ArrivalAfter(table, now);
    if !NoneLater(table, now) {
      var i :| IsFirstLater(table, now, i) && r == table[i];
      if i == 0 {
        assert r != v;
      } else {
        assert !Less(now, table[0]);
        assert r != v;
      }
    }
  }

  /** In an ascending table the first match is the earliest later departure. */
  lemma SortedArrivalIsEarliest(table: seq<DayTime>, now: DayTime, j: int)
    requires |table| > 0 && Sorted(table)
    requires 0 <= j < |table| && Less(now, table[j])
    ensures ArrivalAfter(table, now) == table[j] || Less(ArrivalAfter(table, now), table[j])
  {
    var r := ArrivalAfter(table, now);
    var i :| IsFirstLater(table, now, i) && r == table[i];
    assert i <= j;
  }

  /** In an ascending table, asking at the last departure wraps to the first
      departure tomorrow. */
  lemma SortedLastEntryWraps(table: seq<DayTime>)
    requires |table| > 0 && Sorted(table)
    ensures ArrivalAfter(table, table[|table| - 1]) == DayTime(table[0].hour + 24, table[0].minute)
  {
    var now := table[|table| - 1];
    forall j | 0 <= j < |table| ensures !Less(now, table[j]) {
      if j < |table| - 1 {
        assert Less(table[j], now);
      }
    }
    NoneLaterWraps(table, now);
  }

  /** In an ascending usable table, one minute before the last departure the
      answer is the last departure, one minute away. */
  lemma SortedOneMinuteBeforeLast(table: seq<DayTime>, now: DayTime)
    requires ValidTable(table) && Sorted(table) && ValidTime(now)
    requires MinutesOf(now) + 1 == MinutesOf(table[|table| - 1])
    ensures ArrivalAfter(table, now) == table[|table| - 1]
    ensures MinutesBetween(now, ArrivalAfter(table, now)) == 1
  {
    var n := |table| - 1;
    assert ValidTime(table[n]);
    LessMatchesMinutes(now, table[n]);
    forall j | 0 <= j < n ensures !Less(now, table[j]) {
      assert Less(table[j], table[n]) && ValidTime(table[j]);
      LessMatchesMinutes(table[j], table[n]);
      LessMatchesMinutes(now, table[j]);
    }
    FirstLaterIsArrival(table, now, n);
  }
}
