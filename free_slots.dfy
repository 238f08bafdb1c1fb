/** The free-slot finder: the meetings are sorted by start time, then swept
    once from left to right with a cursor that starts at the beginning of the
    working day. Every gap between the cursor and the next meeting's start,
    and the gap between the cursor and the end of the day, is reported when it
    is at least the requested duration long. After each meeting the cursor is
    set to that meeting's end plus the buffer, whatever it was before.

    All quantities are whole minutes since midnight; the page's float hours are
    these divided by 60, and every comparison of the sweep is unchanged by that
    scaling. */
module SlotFinder {
  import opened Clock

  /** A meeting as stored: a start time and an end time. */
  datatype Meeting = Meeting(start: TimeOfDay, end: TimeOfDay)

  /** A suggested free slot, both bounds in minutes since midnight. */
  datatype Slot = Slot(start: int, end: int)

  function StartOf(m: Meeting): (r: int) { Minutes(m.start) }

  function EndOf(m: Meeting): (r: int) { Minutes(m.end) }

  /** The guard of the sweep: a gap is reported when it lasts at least `duration`. */
  predicate LongEnough(g: Slot, duration: int) { g.end - g.start >= duration }

  // ---------------------------------------------------------------------------
  // sorted(meetings, key=start)
  // ---------------------------------------------------------------------------

  ghost predicate SortedByStart(ms: seq<Meeting>)
  {
    forall i, j :: 0 <= i < j < |ms| ==> StartOf(ms[i]) <= StartOf(ms[j])
  }

  /** Inserts `x` before the first element that does not start earlier, so
      that `x` stays ahead of the meetings with the same start. */
  function Insert(x: Meeting, s: seq<Meeting>): (r: seq<Meeting>)
    ensures |r| == |s| + 1
  {
    if s == [] || StartOf(x) <= StartOf(s[0]) then [x] + s
    else [s[0]] + Insert(x, s[1..])
  }

  lemma {:induction false} InsertPermutes(x: Meeting, s: seq<Meeting>)
    ensures multiset(Insert(x, s)) == multiset(s) + multiset{x}
  {
    if s != [] && StartOf(x) > StartOf(s[0]) {
      InsertPermutes(x, s[1..]);
      assert s == [s[0]] + s[1..];
    }
  }

  lemma {:induction false} InsertSorted(x: Meeting, s: seq<Meeting>)
    requires SortedByStart(s)
    ensures SortedByStart(Insert(x, s))
  {
    if s != [] && StartOf(x) > StartOf(s[0]) {
      var rest := Insert(x, s[1..]);
      InsertSorted(x, s[1..]);
      InsertPermutes(x, s[1..]);
      forall j | 0 <= j < |rest| ensures StartOf(s[0]) <= StartOf(rest[j]) {
        assert rest[j] in multiset(rest);
        assert rest[j] == x || rest[j] in multiset(s[1..]);
      }
    }
  }

  /** Python's `sorted` with the start time as key: a stable sort. */
  function SortByStart(ms: seq<Meeting>): (r: seq<Meeting>)
    ensures |r| == |ms|
  {
    if ms == [] then [] else Insert(ms[0], SortByStart(ms[1..]))
  }

  /** The sort returns the same meetings, ordered by start. */
  lemma {:induction false} SortSortsAndPermutes(ms: seq<Meeting>)
    ensures multiset(SortByStart(ms)) == multiset(ms)
    ensures SortedByStart(SortByStart(ms))
  {
    if ms != [] {
      var rest := SortByStart(ms[1..]);
      SortSortsAndPermutes(ms[1..]);
      InsertPermutes(ms[0], rest);
      InsertSorted(ms[0], rest);
      assert ms == [ms[0]] + ms[1..];
    }
  }

  /** `[m]` when `m` starts at minute `k`, otherwise nothing. */
  function Tie(m: Meeting, k: int): (r: seq<Meeting>)
  {
    if StartOf(m) == k then [m] else []
  }

  /** The meetings of `ms` that start at minute `k`, in their order in `ms`. */
  function WithStart(ms: seq<Meeting>, k: int): (r: seq<Meeting>)
  {
    if ms == [] then [] else Tie(ms[0], k) + WithStart(ms[1..], k)
  }

  lemma WithStartCons(y: Meeting, t: seq<Meeting>, k: int)
    ensures WithStart([y] + t, k) == Tie(y, k) + WithStart(t, k)
  {
    assert ([y] + t)[1..] == t;
  }

  /** Two meetings with different starts: at most one of them starts at `k`. */
  lemma TiesCommute(a: Meeting, b: Meeting, k: int, rest: seq<Meeting>)
    requires StartOf(a) != StartOf(b)
    ensures Tie(a, k) + (Tie(b, k) + rest) == Tie(b, k) + (Tie(a, k) + rest)
  {
    if StartOf(a) == k {
      assert Tie(b, k) + rest == rest;
    } else {
      assert Tie(a, k) + rest == rest;
    }
  }

  lemma {:induction false} InsertKeepsTies(x: Meeting, s: seq<Meeting>, k: int)
    ensures WithStart(Insert(x, s), k) == WithStart([x] + s, k)
  {
    if s != [] && StartOf(x) > StartOf(s[0]) {
      var s0, tail := s[0], s[1..];
      InsertKeepsTies(x, tail, k);
      calc {
        WithStart(Insert(x, s), k);
        == { assert Insert(x, s) == [s0] + Insert(x, tail); WithStartCons(s0, Insert(x, tail), k); }
        Tie(s0, k) + WithStart(Insert(x, tail), k);
        ==
        Tie(s0, k) + WithStart([x] + tail, k);
        == { WithStartCons(x, tail, k); }
        Tie(s0, k) + (Tie(x, k) + WithStart(tail, k));
        == { TiesCommute(s0, x, k, WithStart(tail, k)); }
        Tie(x, k) + (Tie(s0, k) + WithStart(tail, k));
        == { assert s == [s0] + tail; WithStartCons(s0, tail, k); }
        Tie(x, k) + WithStart(s, k);
        == { WithStartCons(x, s, k); }
        WithStart([x] + s, k);
      }
    }
  }

  /** The sort is stable: meetings with the same start keep their relative
      order. This decides the sweep's result, because the last of them sets
      the cursor. */
  lemma {:induction false} SortIsStable(ms: seq<Meeting>, k: int)
    ensures WithStart(SortByStart(ms), k) == WithStart(ms, k)
  {
    if ms != [] {
      SortIsStable(ms[1..], k);
      InsertKeepsTies(ms[0], SortByStart(ms[1..]), k);
      WithStartCons(ms[0], SortByStart(ms[1..]), k);
      WithStartCons(ms[0], ms[1..], k);
      assert ms == [ms[0]] + ms[1..];
    }
  }

  // ---------------------------------------------------------------------------
  // The gaps the sweep looks at, in closed form
  // ---------------------------------------------------------------------------

  /** The cursor when the sweep reaches the `i`-th sorted meeting (or, for
      `i == |sorted|`, the end of the loop): the start of the day before any
      meeting, otherwise the end of the previous meeting plus the buffer. */
  function Cursor(sorted: seq<Meeting>, i: int, startMin: int, buffer: int): (c: int)
    requires 0 <= i <= |sorted|
    ensures i > 0 ==> buffer <= c < 1440 + buffer
  {
    if i == 0 then startMin else EndOf(sorted[i - 1]) + buffer
  }

  /** The `i`-th gap: from the cursor to the start of the `i`-th meeting, or
      to the end of the day for `i == |sorted|`. */
  function Gap(sorted: seq<Meeting>, i: int, startMin: int, endMin: int, buffer: int): (g: Slot)
    requires 0 <= i <= |sorted|
    ensures g.start == startMin || (0 < i && g.start == EndOf(sorted[i - 1]) + buffer)
    ensures g.end == endMin || (i < |sorted| && g.end == StartOf(sorted[i]))
  {
    Slot(Cursor(sorted, i, startMin, buffer), if i < |sorted| then StartOf(sorted[i]) else endMin)
  }

  /** Once a meeting has been visited, the cursor depends on that meeting
      and the buffer alone: not on the start of the day, nor on any earlier
      meeting, however late that one ends. */
  lemma CursorIsReset(a: seq<Meeting>, i: int, startA: int, b: seq<Meeting>, j: int, startB: int, buffer: int)
    requires 0 < i <= |a| && 0 < j <= |b| && a[i - 1] == b[j - 1]
    ensures Cursor(a, i, startA, buffer) == Cursor(b, j, startB, buffer)
  {
  }

  /** The first `i` gaps, in sweep order. */
  function GapsUpTo(sorted: seq<Meeting>, i: int, startMin: int, endMin: int, buffer: int): (gs: seq<Slot>)
    requires 0 <= i <= |sorted| + 1
    ensures |gs| == i
  {
    if i == 0 then [] else GapsUpTo(sorted, i - 1, startMin, endMin, buffer) + [Gap(sorted, i - 1, startMin, endMin, buffer)]
  }

  lemma {:induction false} GapsUpToAt(sorted: seq<Meeting>, i: int, startMin: int, endMin: int, buffer: int)
    requires 0 <= i <= |sorted| + 1
    ensures forall j :: 0 <= j < i ==> GapsUpTo(sorted, i, startMin, endMin, buffer)[j] == Gap(sorted, j, startMin, endMin, buffer)
  {
    if i > 0 {
      GapsUpToAt(sorted, i - 1, startMin, endMin, buffer);
    }
  }

  /** All the gaps the sweep examines: one before each meeting and one at the end. */
  function Gaps(sorted: seq<Meeting>, startMin: int, endMin: int, buffer: int): (gs: seq<Slot>)
    ensures |gs| == |sorted| + 1
    ensures gs[0].start == startMin && gs[|sorted|].end == endMin
  {
    GapsUpToAt(sorted, |sorted| + 1, startMin, endMin, buffer);
    GapsUpTo(sorted, |sorted| + 1, startMin, endMin, buffer)
  }

  /** The gaps that pass the duration guard, in order. */
  function KeepLong(gs: seq<Slot>, duration: int): (r: seq<Slot>)
    ensures |r| <= |gs|
    decreases |gs|
  {
    if gs == [] then []
    else KeepLong(gs[..|gs| - 1], duration) + (if LongEnough(gs[|gs| - 1], duration) then [gs[|gs| - 1]] else [])
  }

  /** The filter keeps exactly the gaps that pass the guard. */
  lemma {:induction false} KeepLongMembers(gs: seq<Slot>, duration: int)
    ensures forall x :: x in KeepLong(gs, duration) <==> x in gs && LongEnough(x, duration)
    decreases |gs|
  {
    if gs != [] {
      var init, last := gs[..|gs| - 1], gs[|gs| - 1];
      assert gs == init + [last];
      KeepLongMembers(init, duration);
    }
  }

  lemma KeepLongSnoc(gs: seq<Slot>, x: Slot, duration: int)
    ensures KeepLong(gs + [x], duration) == KeepLong(gs, duration) + (if LongEnough(x, duration) then [x] else [])
  {
    assert (gs + [x])[..|gs|] == gs;
  }

  /** The filter over three gaps, spelled out. */
  lemma KeepLongOfThree(g0: Slot, g1: Slot, g2: Slot, duration: int)
    ensures KeepLong([g0, g1, g2], duration) ==
      (if LongEnough(g0, duration) then [g0] else []) +
      (if LongEnough(g1, duration) then [g1] else []) +
      (if LongEnough(g2, duration) then [g2] else [])
  {
    KeepLongSnoc([], g0, duration);
    KeepLongSnoc([g0], g1, duration);
    KeepLongSnoc([g0, g1], g2, duration);
    assert [g0, g1, g2] == [] + [g0] + [g1] + [g2];
  }

  lemma KeepLongOfFour(g0: Slot, g1: Slot, g2: Slot, g3: Slot, duration: int)
    ensures KeepLong([g0, g1, g2, g3], duration) ==
      (if LongEnough(g0, duration) then [g0] else []) +
      (if LongEnough(g1, duration) then [g1] else []) +
      (if LongEnough(g2, duration) then [g2] else []) +
      (if LongEnough(g3, duration) then [g3] else [])
  {
    KeepLongOfThree(g0, g1, g2, duration);
    KeepLongSnoc([g0, g1, g2], g3, duration);
    assert [g0, g1, g2, g3] == [g0, g1, g2] + [g3];
  }

  lemma KeepLongOfTwo(g0: Slot, g1: Slot, duration: int)
    ensures KeepLong([g0, g1], duration) ==
      (if LongEnough(g0, duration) then [g0] else []) +
      (if LongEnough(g1, duration) then [g1] else [])
  {
    KeepLongSnoc([], g0, duration);
    KeepLongSnoc([g0], g1, duration);
    assert [g0, g1] == [] + [g0] + [g1];
  }

  /** What `find_free_slots` returns. */
  function FreeSlots(startMin: int, endMin: int, duration: int, buffer: int, meetings: seq<Meeting>): (r: seq<Slot>)
    ensures |r| <= |meetings| + 1
  {
    KeepLong(Gaps(SortByStart(meetings), startMin, endMin, buffer), duration)
  }

  /** Every slot lasts at least the requested duration. */
  lemma FreeSlotsAreLong(startMin: int, endMin: int, duration: int, buffer: int, meetings: seq<Meeting>)
    ensures var r := FreeSlots(startMin, endMin, duration, buffer, meetings);
      forall k :: 0 <= k < |r| ==> r[k].end - r[k].start >= duration
  {
    var gs := Gaps(SortByStart(meetings), startMin, endMin, buffer);
    var r := KeepLong(gs, duration);
    KeepLongMembers(gs, duration);
    forall k | 0 <= k < |r| ensures r[k].end - r[k].start >= duration {
      assert r[k] in r;
    }
  }

  // ---------------------------------------------------------------------------
  // The sweep itself
  // ---------------------------------------------------------------------------

  /** One step of the sweep: the next gap is reported exactly when it is long enough. */
  lemma SweepStep(sorted: seq<Meeting>, i: int, startMin: int, endMin: int, duration: int, buffer: int)
    requires 0 <= i <= |sorted|
    ensures var g := Gap(sorted, i, startMin, endMin, buffer);
      KeepLong(GapsUpTo(sorted, i + 1, startMin, endMin, buffer), duration) ==
      KeepLong(GapsUpTo(sorted, i, startMin, endMin, buffer), duration) + (if LongEnough(g, duration) then [g] else [])
  {
    KeepLongSnoc(GapsUpTo(sorted, i, startMin, endMin, buffer), Gap(sorted, i, startMin, endMin, buffer), duration);
  }

  /** `find_free_slots`: one pass over the sorted meetings, appending to `free`. */
  method FindFreeSlots(startMin: int, endMin: int, duration: int, buffer: int, meetings: seq<Meeting>)
    returns (free: seq<Slot>)
    ensures free == FreeSlots(startMin, endMin, duration, buffer, meetings)
    ensures |free| <= |meetings| + 1
    ensures forall k :: 0 <= k < |free| ==> free[k].end - free[k].start >= duration
  {
    var sorted := SortByStart(meetings);
    var current := startMin;
    free := [];
    var i := 0;
    while i < |sorted|
      invariant 0 <= i <= |sorted|
      invariant current == Cursor(sorted, i, startMin, buffer)
      invariant free == KeepLong(GapsUpTo(sorted, i, startMin, endMin, buffer), duration)
    {
      var s, e := StartOf(sorted[i]), EndOf(sorted[i]);
      SweepStep(sorted, i, startMin, endMin, duration, buffer);
      assert Gap(sorted, i, startMin, endMin, buffer) == Slot(current, s);
      if s - current >= duration {
        free := free + [Slot(current, s)];
      }
      current := e + buffer;
      i := i + 1;
    }
    SweepStep(sorted, i, startMin, endMin, duration, buffer);
    assert Gap(sorted, i, startMin, endMin, buffer) == Slot(current, endMin);
    assert Gaps(sorted, startMin, endMin, buffer) == GapsUpTo(sorted, i + 1, startMin, endMin, buffer);
    if endMin - current >= duration {
      free := free + [Slot(current, endMin)];
    }
    assert free == FreeSlots(startMin, endMin, duration, buffer, meetings);
    assert forall k :: 0 <= k < |free| ==> free[k].end - free[k].start >= duration by {
      FreeSlotsAreLong(startMin, endMin, duration, buffer, meetings);
    }
  }

  // ---------------------------------------------------------------------------
  // Properties of the result
  // ---------------------------------------------------------------------------

  /** Without meetings the whole working day is the one candidate. */
  lemma NoMeetings(startMin: int, endMin: int, duration: int, buffer: int)
    ensures FreeSlots(startMin, endMin, duration, buffer, []) ==
      if endMin - startMin >= duration then [Slot(startMin, endMin)] else []
  {
    var gs := Gaps([], startMin, endMin, buffer);
    assert gs == [Slot(startMin, endMin)];
    assert gs[..0] == [];
  }

  lemma SortedMembers(ms: seq<Meeting>)
    ensures forall m :: m in SortByStart(ms) <==> m in ms
  {
    var sorted := SortByStart(ms);
    SortSortsAndPermutes(ms);
    forall m ensures m in sorted <==> m in ms {
      assert m in sorted <==> m in multiset(sorted);
      assert m in ms <==> m in multiset(ms);
    }
  }

  /** Every slot starts at the start of the day or at some meeting's end plus
      the buffer, and ends at some meeting's start or at the end of the day. */
  lemma SlotOrigins(startMin: int, endMin: int, duration: int, buffer: int, meetings: seq<Meeting>)
    ensures forall x :: x in FreeSlots(startMin, endMin, duration, buffer, meetings) ==>
      (x.start == startMin || exists m :: m in meetings && x.start == EndOf(m) + buffer) &&
      (x.end == endMin || exists m :: m in meetings && x.end == StartOf(m))
  {
    var sorted := SortByStart(meetings);
    var gs := Gaps(sorted, startMin, endMin, buffer);
    KeepLongMembers(gs, duration);
    SortedMembers(meetings);
    GapsUpToAt(sorted, |sorted| + 1, startMin, endMin, buffer);
    forall x | x in FreeSlots(startMin, endMin, duration, buffer, meetings)
      ensures x.start == startMin || exists m :: m in meetings && x.start == EndOf(m) + buffer
      ensures x.end == endMin || exists m :: m in meetings && x.end == StartOf(m)
    {
      var i :| 0 <= i < |gs| && gs[i] == x;
      if i > 0 {
        assert sorted[i - 1] in sorted;
      }
      if i < |sorted| {
        assert sorted[i] in sorted;
      }
    }
  }

  /** The sweep over one meeting, or over two that are already in order, as
      the list of gaps it examines. */
  lemma SweepOfOne(startMin: int, endMin: int, duration: int, buffer: int, m: Meeting)
    ensures FreeSlots(startMin, endMin, duration, buffer, [m]) ==
      KeepLong([Slot(startMin, StartOf(m)), Slot(EndOf(m) + buffer, endMin)], duration)
  {
    assert SortByStart([m]) == [m] by {
      assert [m][1..] == [];
    }
    GapsUpToAt([m], 2, startMin, endMin, buffer);
    assert Gaps([m], startMin, endMin, buffer) == [Slot(startMin, StartOf(m)), Slot(EndOf(m) + buffer, endMin)];
  }

  lemma GapsOfTwo(startMin: int, endMin: int, buffer: int, a: Meeting, b: Meeting)
    ensures Gaps([a, b], startMin, endMin, buffer) ==
      [Slot(startMin, StartOf(a)), Slot(EndOf(a) + buffer, StartOf(b)), Slot(EndOf(b) + buffer, endMin)]
  {
    GapsUpToAt([a, b], 3, startMin, endMin, buffer);
  }

  lemma SweepOfTwo(startMin: int, endMin: int, duration: int, buffer: int, a: Meeting, b: Meeting)
    requires StartOf(a) <= StartOf(b)
    ensures FreeSlots(startMin, endMin, duration, buffer, [a, b]) ==
      KeepLong([Slot(startMin, StartOf(a)), Slot(EndOf(a) + buffer, StartOf(b)), Slot(EndOf(b) + buffer, endMin)], duration)
  {
    assert SortByStart([a, b]) == [a, b] by {
      assert [a, b][1..] == [b];
      assert [b][1..] == [];
      assert SortByStart([b]) == [b];
    }
    GapsOfTwo(startMin, endMin, buffer, a, b);
  }

  lemma GapsOfThree(startMin: int, endMin: int, buffer: int, a: Meeting, b: Meeting, c: Meeting)
    ensures Gaps([a, b, c], startMin, endMin, buffer) ==
      [Slot(startMin, StartOf(a)), Slot(EndOf(a) + buffer, StartOf(b)),
       Slot(EndOf(b) + buffer, StartOf(c)), Slot(EndOf(c) + buffer, endMin)]
  {
    GapsUpToAt([a, b, c], 4, startMin, endMin, buffer);
  }

  lemma SweepOfThree(startMin: int, endMin: int, duration: int, buffer: int, ms: seq<Meeting>, a: Meeting, b: Meeting, c: Meeting)
    requires SortByStart(ms) == [a, b, c]
    ensures FreeSlots(startMin, endMin, duration, buffer, ms) ==
      KeepLong([Slot(startMin, StartOf(a)), Slot(EndOf(a) + buffer, StartOf(b)),
                Slot(EndOf(b) + buffer, StartOf(c)), Slot(EndOf(c) + buffer, endMin)], duration)
  {
    GapsOfThree(startMin, endMin, buffer, a, b, c);
  }

  // --- the well-spaced case ----------------------------------------------------

  /** Every meeting lies inside the working day and starts before it ends. */
  ghost predicate Inside(meetings: seq<Meeting>, startMin: int, endMin: int)
  {
    forall m :: m in meetings ==> startMin <= StartOf(m) < EndOf(m) <= endMin
  }

  /** Consecutive sorted meetings leave at least the buffer between them. */
  ghost predicate WellSpaced(sorted: seq<Meeting>, buffer: int)
  {
    forall i :: 0 <= i < |sorted| - 1 ==> StartOf(sorted[i + 1]) >= EndOf(sorted[i]) + buffer
  }

  /** Each slot ends no later than any later slot starts. */
  ghost predicate Chained(gs: seq<Slot>)
  {
    forall i, j :: 0 <= i < j < |gs| ==> gs[i].end <= gs[j].start
  }

  lemma {:induction false} KeepLongChained(gs: seq<Slot>, duration: int)
    requires Chained(gs)
    ensures Chained(KeepLong(gs, duration))
    decreases |gs|
  {
    if gs != [] {
      var init, last := gs[..|gs| - 1], gs[|gs| - 1];
      KeepLongChained(init, duration);
      KeepLongMembers(init, duration);
      var front := KeepLong(init, duration);
      forall x | x in front ensures x.end <= last.start {
        var a :| 0 <= a < |init| && init[a] == x;
      }
    }
  }

  lemma {:induction false} EndsIncrease(sorted: seq<Meeting>, buffer: int, a: int, b: int)
    requires 0 <= buffer
    requires forall i :: 0 <= i < |sorted| ==> StartOf(sorted[i]) < EndOf(sorted[i])
    requires WellSpaced(sorted, buffer)
    requires 0 <= a <= b < |sorted|
    ensures EndOf(sorted[a]) <= EndOf(sorted[b])
    decreases b - a
  {
    if a < b {
      EndsIncrease(sorted, buffer, a + 1, b);
    }
  }

  /** The well-spaced case before the duration filter: every gap lies inside
      the day, each ends before the next begins, and none meets a meeting or
      its trailing buffer. */
  lemma GapsInsideDay(sorted: seq<Meeting>, startMin: int, endMin: int, buffer: int)
    requires 0 <= buffer
    requires forall i :: 0 <= i < |sorted| ==> startMin <= StartOf(sorted[i]) < EndOf(sorted[i]) <= endMin
    ensures var gs := Gaps(sorted, startMin, endMin, buffer);
      forall i :: 0 <= i < |gs| ==> startMin <= gs[i].start && gs[i].end <= endMin
  {
    GapsUpToAt(sorted, |sorted| + 1, startMin, endMin, buffer);
  }

  lemma GapsChained(sorted: seq<Meeting>, startMin: int, endMin: int, buffer: int)
    requires 0 <= buffer
    requires WellSpaced(sorted, buffer)
    requires forall i :: 0 <= i < |sorted| ==> startMin <= StartOf(sorted[i]) < EndOf(sorted[i]) <= endMin
    ensures Chained(Gaps(sorted, startMin, endMin, buffer))
  {
    var gs := Gaps(sorted, startMin, endMin, buffer);
    GapsUpToAt(sorted, |sorted| + 1, startMin, endMin, buffer);
    forall i, j | 0 <= i < j < |gs| ensures gs[i].end <= gs[j].start {
      GapBeforeGap(sorted, startMin, endMin, buffer, i, j);
    }
  }

  lemma GapsMissMeetings(sorted: seq<Meeting>, startMin: int, endMin: int, buffer: int)
    requires 0 <= buffer
    requires SortedByStart(sorted) && WellSpaced(sorted, buffer)
    requires forall i :: 0 <= i < |sorted| ==> startMin <= StartOf(sorted[i]) < EndOf(sorted[i]) <= endMin
    ensures var gs := Gaps(sorted, startMin, endMin, buffer);
      forall i, k :: 0 <= i < |gs| && 0 <= k < |sorted| ==>
        gs[i].end <= StartOf(sorted[k]) || EndOf(sorted[k]) + buffer <= gs[i].start
  {
    var gs := Gaps(sorted, startMin, endMin, buffer);
    GapsUpToAt(sorted, |sorted| + 1, startMin, endMin, buffer);
    forall i, k | 0 <= i < |gs| && 0 <= k < |sorted|
      ensures gs[i].end <= StartOf(sorted[k]) || EndOf(sorted[k]) + buffer <= gs[i].start
    {
      GapMissesMeeting(sorted, startMin, endMin, buffer, i, k);
    }
  }

  lemma GapBeforeGap(sorted: seq<Meeting>, startMin: int, endMin: int, buffer: int, i: int, j: int)
    requires 0 <= buffer
    requires WellSpaced(sorted, buffer)
    requires forall i :: 0 <= i < |sorted| ==> startMin <= StartOf(sorted[i]) < EndOf(sorted[i]) <= endMin
    requires 0 <= i < j <= |sorted|
    ensures Gap(sorted, i, startMin, endMin, buffer).end <= Gap(sorted, j, startMin, endMin, buffer).start
  {
    EndsIncrease(sorted, buffer, i, j - 1);
  }

  lemma GapMissesMeeting(sorted: seq<Meeting>, startMin: int, endMin: int, buffer: int, i: int, k: int)
    requires 0 <= buffer
    requires SortedByStart(sorted) && WellSpaced(sorted, buffer)
    requires forall i :: 0 <= i < |sorted| ==> startMin <= StartOf(sorted[i]) < EndOf(sorted[i]) <= endMin
    requires 0 <= i <= |sorted| && 0 <= k < |sorted|
    ensures var g := Gap(sorted, i, startMin, endMin, buffer);
      g.end <= StartOf(sorted[k]) || EndOf(sorted[k]) + buffer <= g.start
  {
    if k < i {
      EndsIncrease(sorted, buffer, k, i - 1);
    }
  }

  /** The sorted meetings of a day whose meetings all lie inside it. */
  lemma SortedInside(meetings: seq<Meeting>, startMin: int, endMin: int)
    requires Inside(meetings, startMin, endMin)
    ensures var sorted := SortByStart(meetings);
      && SortedByStart(sorted)
      && forall i :: 0 <= i < |sorted| ==> startMin <= StartOf(sorted[i]) < EndOf(sorted[i]) <= endMin
  {
    var sorted := SortByStart(meetings);
    SortSortsAndPermutes(meetings);
    SortedMembers(meetings);
    forall i | 0 <= i < |sorted| ensures startMin <= StartOf(sorted[i]) < EndOf(sorted[i]) <= endMin {
      assert sorted[i] in sorted;
    }
  }

  /** With every meeting inside the day and consecutive meetings at least the
      buffer apart, the slots are ordered and disjoint, lie inside the day, and
      none meets a meeting or the buffer that follows it. */
  lemma WellSpacedSlots(startMin: int, endMin: int, duration: int, buffer: int, meetings: seq<Meeting>)
    requires 0 <= buffer && 0 <= duration
    requires Inside(meetings, startMin, endMin)
    requires WellSpaced(SortByStart(meetings), buffer)
    ensures var r := FreeSlots(startMin, endMin, duration, buffer, meetings);
      && (forall k :: 0 <= k < |r| ==> startMin <= r[k].start <= r[k].end <= endMin)
      && (forall k, l :: 0 <= k < l < |r| ==> r[k].end <= r[l].start)
      && (forall k, m :: 0 <= k < |r| && m in meetings ==> r[k].end <= StartOf(m) || EndOf(m) + buffer <= r[k].start)
  {
    SlotsInsideDay(startMin, endMin, duration, buffer, meetings);
    SlotsOrdered(startMin, endMin, duration, buffer, meetings);
    SlotsMissMeetings(startMin, endMin, duration, buffer, meetings);
  }

  lemma SlotsInsideDay(startMin: int, endMin: int, duration: int, buffer: int, meetings: seq<Meeting>)
    requires 0 <= buffer && 0 <= duration
    requires Inside(meetings, startMin, endMin)
    ensures var r := FreeSlots(startMin, endMin, duration, buffer, meetings);
      forall k :: 0 <= k < |r| ==> startMin <= r[k].start <= r[k].end <= endMin
  {
    var sorted := SortByStart(meetings);
    var gs := Gaps(sorted, startMin, endMin, buffer);
    var r := KeepLong(gs, duration);
    SortedInside(meetings, startMin, endMin);
    GapsInsideDay(sorted, startMin, endMin, buffer);
    KeepLongMembers(gs, duration);
    forall k | 0 <= k < |r| ensures startMin <= r[k].start <= r[k].end <= endMin {
      assert r[k] in r;
      var i :| 0 <= i < |gs| && gs[i] == r[k];
    }
  }

  lemma SlotsOrdered(startMin: int, endMin: int, duration: int, buffer: int, meetings: seq<Meeting>)
    requires 0 <= buffer
    requires Inside(meetings, startMin, endMin)
    requires WellSpaced(SortByStart(meetings), buffer)
    ensures var r := FreeSlots(startMin, endMin, duration, buffer, meetings);
      forall k, l :: 0 <= k < l < |r| ==> r[k].end <= r[l].start
  {
    var sorted := SortByStart(meetings);
    SortedInside(meetings, startMin, endMin);
    GapsChained(sorted, startMin, endMin, buffer);
    KeepLongChained(Gaps(sorted, startMin, endMin, buffer), duration);
  }

  lemma SlotsMissMeetings(startMin: int, endMin: int, duration: int, buffer: int, meetings: seq<Meeting>)
    requires 0 <= buffer
    requires Inside(meetings, startMin, endMin)
    requires WellSpaced(SortByStart(meetings), buffer)
    ensures var r := FreeSlots(startMin, endMin, duration, buffer, meetings);
      forall k, m :: 0 <= k < |r| && m in meetings ==> r[k].end <= StartOf(m) || EndOf(m) + buffer <= r[k].start
  {
    var sorted := SortByStart(meetings);
    var gs := Gaps(sorted, startMin, endMin, buffer);
    var r := KeepLong(gs, duration);
    SortedInside(meetings, startMin, endMin);
    GapsMissMeetings(sorted, startMin, endMin, buffer);
    KeepLongMembers(gs, duration);
    SortedMembers(meetings);
    forall k, m | 0 <= k < |r| && m in meetings
      ensures r[k].end <= StartOf(m) || EndOf(m) + buffer <= r[k].start
    {
      assert r[k] in r;
      var i :| 0 <= i < |gs| && gs[i] == r[k];
      var c :| 0 <= c < |sorted| && sorted[c] == m;
    }
  }
}
