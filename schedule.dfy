/** The page around the sweep: the list of meetings the user has added, the
    list used for the calculations (the stored meetings plus an optional lunch
    block), and the three figures shown above the calendar: total work time,
    busy time and free time, all in minutes. */
module Schedule {
  import opened Clock
  import opened SlotFinder

  /** The lunch block, 12:00 to 13:00. */
  function Lunch(): (m: Meeting)
    ensures StartOf(m) == 12 * 60 && EndOf(m) == 13 * 60
  {
    Meeting(HourMinute(12, 0), HourMinute(13, 0))
  }

  /** The meetings kept across reruns of the page, in the order they were added. */
  class MeetingStore {
    var meetings: seq<Meeting>

    /** Only meetings that start before they end are ever stored. */
    ghost predicate Valid()
      reads this
    {
      forall m :: m in meetings ==> Before(m.start, m.end)
    }

    constructor ()
      ensures Valid() && meetings == []
    {
      meetings := [];
    }

    /** "Add Meeting": the meeting is appended when its start is before its
        end; otherwise the list stays as it was and a warning is shown. */
    method Add(start: TimeOfDay, end: TimeOfDay) returns (added: bool)
      requires Valid()
      modifies this
      ensures Valid()
      ensures added <==> Minutes(start) < Minutes(end)
      ensures meetings == if added then old(meetings) + [Meeting(start, end)] else old(meetings)
    {
      added := Before(start, end);
      if added {
        meetings := meetings + [Meeting(start, end)];
      }
    }

    /** `meetings_for_calc`: a copy of the stored list, with the lunch block
        appended when lunch is to be avoided. The stored list is not changed. */
    method MeetingsForCalc(avoidLunch: bool) returns (forCalc: seq<Meeting>)
      requires Valid()
      ensures |forCalc| == |meetings| + (if avoidLunch then 1 else 0)
      ensures forCalc[..|meetings|] == meetings
      ensures avoidLunch ==> forCalc[|meetings|] == Lunch()
      ensures forall m :: m in forCalc ==> StartOf(m) < EndOf(m)
    {
      forCalc := meetings;
      if avoidLunch {
        forCalc := forCalc + [Lunch()];
      }
    }
  }

  // ---------------------------------------------------------------------------
  // Total, busy and free time
  // ---------------------------------------------------------------------------

  /** The length of one entry, `(time_to_float(e) - time_to_float(s)) * 60`. */
  function MeetingMinutes(m: Meeting): (r: int)
    ensures r as real == (TimeToFloat(m.end) - TimeToFloat(m.start)) * 60.0
    ensures r > 0 <==> Before(m.start, m.end)
  {
    EndOf(m) - StartOf(m)
  }

  /** `total_time`: the length of the working day, `(end_hour - start_hour) * 60`. */
  function TotalMinutes(workStart: TimeOfDay, workEnd: TimeOfDay): (r: int)
    ensures r as real == (TimeToFloat(workEnd) - TimeToFloat(workStart)) * 60.0
    ensures r > 0 <==> Before(workStart, workEnd)
  {
    Minutes(workEnd) - Minutes(workStart)
  }

  /** `busy`: the lengths of all entries added up, without the buffer, without
      clipping to the working day and without merging overlaps. */
  function BusyMinutes(ms: seq<Meeting>): (r: int)
    ensures (forall m :: m in ms ==> StartOf(m) < EndOf(m)) ==> r >= |ms|
    decreases |ms|
  {
    if ms == [] then 0
    else
      var init := ms[..|ms| - 1];
      assert forall m :: m in init ==> m in ms;
      BusyMinutes(init) + MeetingMinutes(ms[|ms| - 1])
  }

  /** `free`: what the busy time leaves of the working day. */
  function FreeMinutes(workStart: TimeOfDay, workEnd: TimeOfDay, ms: seq<Meeting>): (r: int)
    ensures (forall m :: m in ms ==> StartOf(m) < EndOf(m)) ==> r <= TotalMinutes(workStart, workEnd) - |ms|
  {
    TotalMinutes(workStart, workEnd) - BusyMinutes(ms)
  }

  lemma {:induction false} BusyOfConcat(a: seq<Meeting>, b: seq<Meeting>)
    ensures BusyMinutes(a + b) == BusyMinutes(a) + BusyMinutes(b)
    decreases |b|
  {
    if b != [] {
      var init, last := b[..|b| - 1], b[|b| - 1];
      BusyOfConcat(a, init);
      assert a + b == (a + init) + [last];
      assert ((a + init) + [last])[..|a + init|] == a + init;
      assert BusyMinutes(b) == BusyMinutes(init) + MeetingMinutes(last);
    } else {
      assert a + b == a;
    }
  }

  /** With the lunch option on, the busy time is one hour more and the free
      time one hour less, whatever the stored meetings are. */
  lemma LunchCountsAsBusy(workStart: TimeOfDay, workEnd: TimeOfDay, ms: seq<Meeting>)
    ensures BusyMinutes(ms + [Lunch()]) == BusyMinutes(ms) + 60
    ensures FreeMinutes(workStart, workEnd, ms + [Lunch()]) == FreeMinutes(workStart, workEnd, ms) - 60
  {
    assert (ms + [Lunch()])[..|ms|] == ms;
  }

  /** The busy time does not depend on the order of the entries; in
      particular it is the same over the list the sweep sorts. */
  lemma {:induction false} BusyOfSorted(ms: seq<Meeting>)
    ensures BusyMinutes(SortByStart(ms)) == BusyMinutes(ms)
  {
    if ms != [] {
      BusyOfSorted(ms[1..]);
      BusyOfInsert(ms[0], SortByStart(ms[1..]));
      BusyOfConcat([ms[0]], ms[1..]);
      assert ms == [ms[0]] + ms[1..];
    }
  }

  lemma {:induction false} BusyOfInsert(x: Meeting, s: seq<Meeting>)
    ensures BusyMinutes(Insert(x, s)) == MeetingMinutes(x) + BusyMinutes(s)
  {
    BusyOfConcat([x], s);
    assert BusyMinutes([x]) == MeetingMinutes(x) by {
      assert [x][..0] == [];
    }
    if s != [] && StartOf(x) > StartOf(s[0]) {
      BusyOfInsert(x, s[1..]);
      BusyOfConcat([s[0]], Insert(x, s[1..]));
      BusyOfConcat([s[0]], s[1..]);
      assert BusyMinutes([s[0]]) == MeetingMinutes(s[0]) by {
        assert [s[0]][..0] == [];
      }
      assert s == [s[0]] + s[1..];
    }
  }

  // ---------------------------------------------------------------------------
  // How the free-time figure relates to the sweep
  // ---------------------------------------------------------------------------

  /** The summed lengths of a list of slots; negative lengths count as they are. */
  function SumLengths(gs: seq<Slot>): (r: int)
    decreases |gs|
  {
    if gs == [] then 0 else SumLengths(gs[..|gs| - 1]) + (gs[|gs| - 1].end - gs[|gs| - 1].start)
  }

  lemma {:induction false} PrefixGapsSum(sorted: seq<Meeting>, i: int, startMin: int, endMin: int, buffer: int)
    requires 0 <= i <= |sorted|
    ensures SumLengths(GapsUpTo(sorted, i, startMin, endMin, buffer)) ==
      Cursor(sorted, i, startMin, buffer) - startMin - BusyMinutes(sorted[..i]) - i * buffer
  {
    if i > 0 {
      PrefixGapsSum(sorted, i - 1, startMin, endMin, buffer);
      var gs := GapsUpTo(sorted, i, startMin, endMin, buffer);
      assert gs[..i - 1] == GapsUpTo(sorted, i - 1, startMin, endMin, buffer);
      assert sorted[..i][..i - 1] == sorted[..i - 1];
      assert (i - 1) * buffer + buffer == i * buffer;
    }
  }

  /** The free-time figure equals the summed lengths of every gap the sweep
      examines, short or negative ones included, plus one buffer per entry:
      the figure ignores the buffer the sweep applies. */
  lemma FreeMatchesGaps(workStart: TimeOfDay, workEnd: TimeOfDay, buffer: int, ms: seq<Meeting>)
    ensures SumLengths(Gaps(SortByStart(ms), Minutes(workStart), Minutes(workEnd), buffer)) ==
      FreeMinutes(workStart, workEnd, ms) - |ms| * buffer
  {
    var sorted := SortByStart(ms);
    var n := |sorted|;
    var startMin, endMin := Minutes(workStart), Minutes(workEnd);
    var gs := Gaps(sorted, startMin, endMin, buffer);
    PrefixGapsSum(sorted, n, startMin, endMin, buffer);
    assert gs[..n] == GapsUpTo(sorted, n, startMin, endMin, buffer);
    assert sorted[..n] == sorted;
    BusyOfSorted(ms);
  }
}
