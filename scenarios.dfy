/** Concrete days for the page's calculations: the behaviour of the sweep on a
    nested meeting and on a meeting before the working day, two ordinary
    working days with and without a buffer, and an overlap that drives the
    free-time figure below zero. */
module Scenarios {
  import opened Clock
  import opened SlotFinder
  import opened Schedule

  /** The cursor is reset, not advanced with a maximum: a meeting nested in an
      earlier one moves it back, and the next slot then overlaps the earlier
      meeting. Here 10:30-11:00 lies inside 10:00-15:00 and 11:00-17:00 is
      suggested. */
  lemma NestedMeetingReopensTime(outer: Meeting, inner: Meeting)
    requires outer == Meeting(HourMinute(10, 0), HourMinute(15, 0))
    requires inner == Meeting(HourMinute(10, 30), HourMinute(11, 0))
    ensures var r := FreeSlots(540, 1020, 30, 0, [outer, inner]);
            r == [Slot(540, 600), Slot(660, 1020)] && StartOf(outer) < r[1].start < EndOf(outer)
  {
    GapsOfPair(540, 1020, 30, 0, outer, inner, 600, 900, 630, 660);
    KeepLongOfThree(Slot(540, 600), Slot(900, 630), Slot(660, 1020), 30);
  }

  /** The sweep over two meetings in order, once their bounds are known. */
  lemma GapsOfPair(startMin: int, endMin: int, duration: int, buffer: int, a: Meeting, b: Meeting,
                   s0: int, e0: int, s1: int, e1: int)
    requires StartOf(a) == s0 && EndOf(a) == e0 && StartOf(b) == s1 && EndOf(b) == e1
    requires s0 <= s1
    ensures FreeSlots(startMin, endMin, duration, buffer, [a, b]) ==
      KeepLong([Slot(startMin, s0), Slot(e0 + buffer, s1), Slot(e1 + buffer, endMin)], duration)
  {
    SweepOfTwo(startMin, endMin, duration, buffer, a, b);
    assert [Slot(startMin, StartOf(a)), Slot(EndOf(a) + buffer, StartOf(b)), Slot(EndOf(b) + buffer, endMin)] ==
      [Slot(startMin, s0), Slot(e0 + buffer, s1), Slot(e1 + buffer, endMin)];
  }

  /** A meeting that ends before the working day starts also moves the cursor
      back before the start of the day: 08:00-17:00 is suggested for a day
      that starts at 09:00. */
  lemma EarlyMeetingMovesCursorBack(early: Meeting)
    requires early == Meeting(HourMinute(7, 0), HourMinute(8, 0))
    ensures FreeSlots(540, 1020, 30, 0, [early]) == [Slot(480, 1020)]
  {
    assert StartOf(early) == 420 && EndOf(early) == 480;
    SweepOfOne(540, 1020, 30, 0, early);
    KeepLongOfTwo(Slot(540, 420), Slot(480, 1020), 30);
  }

  /** Meetings 09:00-10:00 and 13:00-14:00 in that order, then the lunch block. */
  lemma SortedDay(m1: Meeting, m2: Meeting)
    requires m1 == Meeting(HourMinute(9, 0), HourMinute(10, 0))
    requires m2 == Meeting(HourMinute(13, 0), HourMinute(14, 0))
    ensures SortByStart([m1, m2, Lunch()]) == [m1, Lunch(), m2]
  {
    assert [m1, m2, Lunch()][1..] == [m2, Lunch()];
    assert [m2, Lunch()][1..] == [Lunch()];
    assert [Lunch()][1..] == [];
    assert SortByStart([Lunch()]) == [Lunch()];
    assert Insert(m2, [Lunch()]) == [Lunch(), m2];
    assert SortByStart([m2, Lunch()]) == [Lunch(), m2];
  }

  /** The gaps the sweep examines on that day, for a given buffer. */
  lemma GapsOfDay(ms: seq<Meeting>, a: Meeting, b: Meeting, c: Meeting, buffer: int)
    requires SortByStart(ms) == [a, b, c]
    requires StartOf(a) == 540 && EndOf(a) == 600 && StartOf(b) == 720
    requires EndOf(b) == 780 && StartOf(c) == 780 && EndOf(c) == 840
    ensures FreeSlots(540, 1020, 30, buffer, ms) ==
      KeepLong([Slot(540, 540), Slot(600 + buffer, 720), Slot(780 + buffer, 780), Slot(840 + buffer, 1020)], 30)
  {
    SweepOfThree(540, 1020, 30, buffer, ms, a, b, c);
    assert [Slot(540, StartOf(a)), Slot(EndOf(a) + buffer, StartOf(b)),
            Slot(EndOf(b) + buffer, StartOf(c)), Slot(EndOf(c) + buffer, 1020)] ==
      [Slot(540, 540), Slot(600 + buffer, 720), Slot(780 + buffer, 780), Slot(840 + buffer, 1020)];
  }

  lemma DayGaps(m1: Meeting, m2: Meeting, buffer: int)
    requires m1 == Meeting(HourMinute(9, 0), HourMinute(10, 0))
    requires m2 == Meeting(HourMinute(13, 0), HourMinute(14, 0))
    ensures FreeSlots(540, 1020, 30, buffer, [m1, m2, Lunch()]) ==
      KeepLong([Slot(540, 540), Slot(600 + buffer, 720), Slot(780 + buffer, 780), Slot(840 + buffer, 1020)], 30)
  {
    SortedDay(m1, m2);
    GapsOfDay([m1, m2, Lunch()], m1, Lunch(), m2, buffer);
  }

  /** A working day 09:00-17:00 with meetings 09:00-10:00 and 13:00-14:00,
      lunch avoided, 30-minute slots and a buffer of up to 90 minutes. The
      buffer is added after each meeting only: without one, 10:00-12:00 and
      14:00-17:00 are suggested; with 10 minutes, 10:10-12:00 and 14:10-17:00:
      no buffer is placed before a meeting, so the slot still ends at 12:00. */
  lemma DaySlots(m1: Meeting, m2: Meeting, buffer: int)
    requires m1 == Meeting(HourMinute(9, 0), HourMinute(10, 0))
    requires m2 == Meeting(HourMinute(13, 0), HourMinute(14, 0))
    requires 0 <= buffer <= 90
    ensures FreeSlots(540, 1020, 30, buffer, [m1, m2, Lunch()]) == [Slot(600 + buffer, 720), Slot(840 + buffer, 1020)]
  {
    DayGaps(m1, m2, buffer);
    KeepLongOfFour(Slot(540, 540), Slot(600 + buffer, 720), Slot(780 + buffer, 780), Slot(840 + buffer, 1020), 30);
  }

  /** On that day the figures are 480, 180 and 300 minutes. */
  lemma PlainDayFigures(m1: Meeting, m2: Meeting)
    requires m1 == Meeting(HourMinute(9, 0), HourMinute(10, 0))
    requires m2 == Meeting(HourMinute(13, 0), HourMinute(14, 0))
    ensures TotalMinutes(HourMinute(9, 0), HourMinute(17, 0)) == 480
    ensures BusyMinutes([m1, m2, Lunch()]) == 180
    ensures FreeMinutes(HourMinute(9, 0), HourMinute(17, 0), [m1, m2, Lunch()]) == 300
  {
    BusyOfConcat([m1, m2], [Lunch()]);
    BusyOfConcat([m1], [m2]);
    assert BusyMinutes([m1]) == 60 by { assert [m1][..0] == []; }
    assert BusyMinutes([m2]) == 60 by { assert [m2][..0] == []; }
    assert BusyMinutes([Lunch()]) == 60 by { assert [Lunch()][..0] == []; }
    assert [m1] + [m2] == [m1, m2];
    assert [m1, m2] + [Lunch()] == [m1, m2, Lunch()];
  }

  /** The same meeting entered twice is counted twice: over a one-hour day
      the free-time figure is -60 minutes. */
  lemma OverlapMakesFreeNegative(m: Meeting)
    requires m == Meeting(HourMinute(9, 0), HourMinute(10, 0))
    ensures FreeMinutes(HourMinute(9, 0), HourMinute(10, 0), [m, m]) == -60
  {
    BusyOfConcat([m], [m]);
    assert BusyMinutes([m]) == 60 by { assert [m][..0] == []; }
    assert [m] + [m] == [m, m];
  }

  /** Over the same day no slot is suggested. */
  lemma OverlapLeavesNoSlot(m: Meeting)
    requires m == Meeting(HourMinute(9, 0), HourMinute(10, 0))
    ensures FreeSlots(540, 600, 30, 0, [m, m]) == []
  {
    GapsOfPair(540, 600, 30, 0, m, m, 540, 600, 540, 600);
    KeepLongOfThree(Slot(540, 540), Slot(600, 540), Slot(600, 600), 30);
  }
}
