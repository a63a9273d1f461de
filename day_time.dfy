/** Time of day as the watchface sees it: an hour and a minute, with no date
    and no time zone. An hour of 24 or more stands for "tomorrow". */
module DayTimes {

  datatype DayTime = DayTime(hour: int, minute: int)

  /** A wall-clock reading: hour 0..23, minute 0..59. */
  predicate ValidTime(t: DayTime) {
    0 <= t.hour < 24 && 0 <= t.minute < 60
  }

  /** Lexicographic order on (hour, minute). */
  predicate Less(a: DayTime, b: DayTime) {
    a.hour < b.hour || (a.hour == b.hour && a.minute < b.minute)
  }

  /** Minutes since the midnight the hour is counted from. */
  function MinutesOf(t: DayTime): int {
    t.hour * 60 + t.minute
  }

  /** The same clock reading one day later. */
  function Tomorrow(t: DayTime): (r: DayTime)
    ensures r.minute == t.minute && MinutesOf(r) == MinutesOf(t) + 1440
  {
    t.(hour := t.hour + 24)
  }

  /** The ordering primitive: its sign is the lexicographic order of a and b.
      When the hours agree the result is the minute difference itself. */
  function Compare(a: DayTime, b: DayTime): (r: int)
    ensures r < 0 <==> Less(a, b)
    ensures r == 0 <==> a == b
    ensures r > 0 <==> Less(b, a)
    ensures a.hour == b.hour ==> r == a.minute - b.minute
  {
    if a.hour < b.hour then -1
    else if a.hour == b.hour then a.minute - b.minute
    else 1
  }

  /** For well-formed minutes the lexicographic order is the order of the
      minute counts, so Compare agrees with calendar time. */
  lemma LessMatchesMinutes(a: DayTime, b: DayTime)
    requires 0 <= a.minute < 60 && 0 <= b.minute < 60
    ensures Less(a, b) <==> MinutesOf(a) < MinutesOf(b)
  {
    if a.hour < b.hour {
      assert MinutesOf(a) < (a.hour + 1) * 60 <= b.hour * 60 <= MinutesOf(b);
    } else if b.hour < a.hour {
      assert MinutesOf(b) < (b.hour + 1) * 60 <= a.hour * 60 <= MinutesOf(a);
    }
  }
}
