/** The timetable: the departures of one bus route from one stop, in the
    order the watchface scans them. */
module Schedules {
  import opened DayTimes

  /** The route number shown next to the arrival time. */
  const BusNumber: string := "700"

  /** The compiled-in timetable of route 700, in source order, written as
      three runs of twenty departures. Its last two entries are after
      midnight and so are lexicographically below the rest. */
  const Shipped: seq<DayTime> := ShippedMorning + ShippedMidday + ShippedEvening

  const ShippedMorning: seq<DayTime> := [
    DayTime(5, 47), DayTime(6, 6), DayTime(6, 25), DayTime(6, 45),
    DayTime(7, 6), DayTime(7, 21), DayTime(7, 37), DayTime(7, 53),
    DayTime(8, 9), DayTime(8, 25), DayTime(8, 40), DayTime(9, 7),
    DayTime(9, 29), DayTime(9, 51), DayTime(10, 14), DayTime(10, 36),
    DayTime(10, 58), DayTime(11, 19), DayTime(11, 40), DayTime(12, 2)
  ]

  const ShippedMidday: seq<DayTime> := [
    DayTime(12, 23), DayTime(12, 44), DayTime(13, 6), DayTime(13, 27),
    DayTime(13, 48), DayTime(14, 10), DayTime(14, 26), DayTime(14, 42),
    DayTime(14, 58), DayTime(15, 14), DayTime(15, 30), DayTime(15, 46),
    DayTime(16, 7), DayTime(16, 28), DayTime(16, 50), DayTime(17, 6),
    DayTime(17, 22), DayTime(17, 38), DayTime(17, 54), DayTime(18, 10)
  ]

  const ShippedEvening: seq<DayTime> := [
    DayTime(18, 26), DayTime(18, 42), DayTime(18, 58), DayTime(19, 14),
    DayTime(19, 30), DayTime(19, 54), DayTime(20, 18), DayTime(20, 42),
    DayTime(21, 5), DayTime(21, 24), DayTime(21, 43), DayTime(22, 3),
    DayTime(22, 22), DayTime(22, 41), DayTime(23, 1), DayTime(23, 20),
    DayTime(23, 39), DayTime(23, 59), DayTime(0, 18), DayTime(0, 37)
  ]

  /** A usable timetable: at least one departure, every one a wall-clock time. */
  predicate ValidTable(table: seq<DayTime>) {
    |table| > 0 && forall i :: 0 <= i < |table| ==> ValidTime(table[i])
  }

  /** Strictly ascending in lexicographic order. */
  predicate Sorted(table: seq<DayTime>) {
    forall i, j :: 0 <= i < j < |table| ==> Less(table[i], table[j])
  }

  /** The shipped table is usable and has 60 entries. */
  lemma ShippedValid()
    ensures ValidTable(Shipped) && |Shipped| == 60
  {
  }

  /** The shipped table ascends up to its 58th entry, 23:59, and is not
      ascending as a whole: 0:18 follows 23:59. */
  lemma ShippedAscendsUntilMidnight()
    ensures Sorted(Shipped[..58])
    ensures !Sorted(Shipped)
    ensures Shipped[57] == DayTime(23, 59) && Shipped[58] == DayTime(0, 18)
  {
    assert Less(Shipped[58], Shipped[57]);
    ShippedAdjacentAscend();
    var day := Shipped[..58];
    assert forall i :: 0 < i < |day| ==> Less(day[i - 1], day[i]);
    AdjacentSorted(day);
  }

  lemma ShippedAdjacentAscend()
    ensures forall i :: 0 < i < 58 ==> Less(Shipped[i - 1], Shipped[i])
  {
  }

  /** Ascending neighbours make the whole table ascending. */
  lemma {:induction false} AdjacentSorted(table: seq<DayTime>)
    requires forall i :: 0 < i < |table| ==> Less(table[i - 1], table[i])
    ensures Sorted(table)
  {
    if |table| > 1 {
      var front := table[..|table| - 1];
      assert forall i :: 0 < i < |front| ==> Less(front[i - 1], front[i]);
      AdjacentSorted(front);
      forall i, j | 0 <= i < j < |table| ensures Less(table[i], table[j]) {
        if j < |table| - 1 {
          assert Less(front[i], front[j]);
        } else if i < j - 1 {
          assert Less(front[i], front[j - 1]);
        }
      }
    }
  }
}
