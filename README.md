# Smart Scheduling Assistant: a verified model of the free-slot finder

The Smart Scheduling Assistant is a one-page scheduling tool. The user sets
a working day (start and end time), a meeting duration, a buffer and an
"avoid lunch" option, and adds meetings. The page then shows three figures:
total work time, busy time and free time. It also lists the free slots of
the day that are long enough for a meeting of the requested duration.

This project models the logic behind that page in Dafny. It is split into
four modules:

- `Clock` (`clock.dfy`) covers times of day. It models `time_to_float` and
  `float_to_time` and proves that, in exact arithmetic, the two round-trip
  to zero-padded `HH:MM`.
- `SlotFinder` (`free_slots.dfy`) covers `find_free_slots`:
  - Python's stable `sorted` by start time, as an insertion sort;
  - the sweep itself, as a method with a loop, proved against a closed-form
    specification (`FreeSlots`: the gaps the sweep examines, filtered by
    length);
  - the properties of the result.
- `Schedule` (`schedule.dfy`) covers the page around the sweep:
  - the stored meeting list, as a class whose `Add` applies the
    start-before-end guard;
  - the list used for the calculations, with the lunch block appended;
  - the total, busy and free figures, and how the free figure relates to
    the gaps the sweep examines.
- `Scenarios` (`scenarios.dfy`) gives concrete days. They show the quirks
  of the code as written.

Every time is counted in whole minutes since midnight. The page works in
float hours, which in exact arithmetic are these minutes divided by 60
(`TimeToFloat` states this). In exact arithmetic, every comparison the
sweep makes (`s - current >= duration_hr`) and every sum of the figures is
unchanged by that scaling. The model is exact arithmetic throughout; the
page's floating-point rounding can differ from it by a minute (see "Left
out").

Three behaviours of the sweep are worth knowing:

- The cursor is reset to `end + buffer` after each meeting rather than
  advanced to the maximum end seen so far. A meeting nested inside an
  earlier one, or one before the working day, moves the cursor back
  (`NestedMeetingReopensTime`, `EarlyMeetingMovesCursorBack`).
- The buffer is applied after a meeting only, never before one. With a
  10-minute buffer, meetings 09:00-10:00 and 13:00-14:00 and lunch, the
  slots are, in exact arithmetic, 10:10-12:00 and 14:10-17:00, not ones
  that end 10 minutes before the next meeting (`DaySlots`).
- The busy figure is the plain sum of entry lengths. It is not clipped to
  the working day and overlaps are not merged, so the free figure can be
  negative (`OverlapMakesFreeNegative`).

## Model

| member | source | states |
|---|---|---|
| Clock.Minutes | app.py:12-13 | the minute count of a time of day lies in 0..1439 |
| Clock.MinutesSplit | app.py:12-13 | the hour and minute are recovered from the minute count by division and remainder by 60 |
| Clock.Before | app.py:113 | `start < end` on time values (hour first, then minute) holds exactly when the start's minute count is smaller |
| Clock.TimeToFloat | app.py:12-13 | `time_to_float` is exactly the minute count divided by 60, and lies in [0, 24) |
| Clock.Trunc | app.py:17-18 | `int()` truncates toward zero: the result is within one of its argument, below it for non-negative and above it for negative arguments |
| Clock.HoursSplit | app.py:17-18 | in exact arithmetic, the hours of a minute count lie between its whole hours and the next, and the fraction times 60 is the remaining minutes |
| Clock.Pad2 | app.py:19 | the `02d` format gives at least two characters, and for 0..99 exactly the tens digit and the units digit |
| Clock.FloatToTime | app.py:16-19 | the text is at least five characters; for hours in [0, 100) it is exactly five, with the colon in the middle |
| Clock.MinutesToText | app.py:16-19 | in exact arithmetic, a whole number of minutes, given as hours, is shown as its padded hour and padded minute within the hour (this covers every slot bound the sweep produces) |
| Clock.TimeText | app.py:12-19 | in exact arithmetic, a time of day converted to hours and back to text is its padded hour, a colon and its padded minute |
| Clock.TimeRoundTrip | app.py:12-19 | in exact arithmetic, `float_to_time(time_to_float(t))` is the zero-padded `HH:MM` of `t`, digit by digit |
| Clock.Decimal | app.py:19 | `str(n)` of a non-negative integer: at least one character, all decimal digits, a single digit exactly below 10, no leading zero otherwise |
| SlotFinder.Insert | app.py:48 | placing one meeting into a list adds exactly one entry |
| SlotFinder.InsertPermutes | app.py:48 | placing a meeting adds exactly that meeting to the multiset of meetings |
| SlotFinder.InsertSorted | app.py:48 | placing a meeting into a list ordered by start keeps it ordered |
| SlotFinder.InsertKeepsTies | app.py:48 | the placed meeting goes ahead of the meetings with the same start, which keep their order |
| SlotFinder.SortByStart | app.py:48 | sorting keeps the number of meetings |
| SlotFinder.SortSortsAndPermutes | app.py:48 | the sorted list is a permutation of the meetings and is ordered by start time |
| SlotFinder.SortIsStable | app.py:48 | for every start time, the meetings starting then keep their relative order (a stable sort) |
| SlotFinder.KeepLong | app.py:60-66 | the length filter never returns more gaps than it is given |
| SlotFinder.KeepLongMembers | app.py:60-66 | a gap is reported exactly when it is examined and lasts at least the duration |
| SlotFinder.FreeSlots | app.py:46-68 | with n meetings there are at most n + 1 slots |
| SlotFinder.FreeSlotsAreLong | app.py:60-66 | every slot, between meetings or at the end of the day, lasts at least the duration |
| SlotFinder.SweepStep | app.py:55-66 | each step of the sweep appends the gap it examines to the result exactly when that gap is long enough |
| SlotFinder.FindFreeSlots | app.py:46-68 | the loop returns exactly the specified slots (its invariant: after each meeting the cursor is that meeting's end plus the buffer, whatever it was before), at most n + 1 of them, each at least the duration long |
| SlotFinder.NoMeetings | app.py:49-68 | without meetings the result is the whole working day when it is long enough, and empty otherwise |
| SlotFinder.SlotOrigins | app.py:49-66 | each slot starts at the start of the day or at some meeting's end plus the buffer, and ends at some meeting's start or at the end of the day |
| SlotFinder.SortedMembers | app.py:48 | the sorted list holds the same meetings as the input |
| SlotFinder.SweepOfOne | app.py:48-68 | over one meeting the sweep examines the gap before it and the gap from its end plus the buffer to the end of the day |
| SlotFinder.GapsOfTwo | app.py:55-66 | over two meetings in the given order the gaps examined are start of day to the first start, first end plus buffer to the second start, and second end plus buffer to the end of day |
| SlotFinder.SweepOfTwo | app.py:48-68 | over two meetings in start order the sweep examines the three gaps around them |
| SlotFinder.SweepOfThree | app.py:48-68 | over three meetings that sort into a given order the sweep examines the four gaps around them |
| SlotFinder.Cursor | app.py:49-63 | once a meeting has been visited, the cursor lies between the buffer and a day plus the buffer, whatever the day's start |
| SlotFinder.CursorIsReset | app.py:63 | once a meeting is visited the cursor depends only on that meeting and the buffer, not on the start of the day or any earlier meeting, however late that one ends |
| SlotFinder.Gap | app.py:55-66 | a gap starts at the start of the day or at the previous meeting's end plus the buffer, and ends at the next meeting's start or the end of the day |
| SlotFinder.Gaps | app.py:55-66 | one gap per meeting plus a final one: the first starts at the start of the day and the last ends at the end of the day |
| SlotFinder.GapsUpTo | app.py:55-63 | the gaps examined before the i-th meeting number i |
| SlotFinder.GapsUpToAt | app.py:55-63 | the i-th gap the sweep examines runs from the cursor to the i-th sorted meeting's start (or the end of the day) |
| SlotFinder.KeepLongChained | app.py:60-66 | when each examined gap ends no later than every later one starts, the same holds of the gaps the filter keeps |
| SlotFinder.EndsIncrease | app.py:48-63 | for valid sorted meetings spaced at least the buffer apart, the meeting ends do not decrease |
| SlotFinder.GapsInsideDay | app.py:49-66 | when every meeting lies inside the working day, every gap examined starts no earlier than the day starts and ends no later than it ends |
| SlotFinder.GapBeforeGap | app.py:55-63 | for well-spaced meetings a gap ends no later than any later gap starts |
| SlotFinder.GapMissesMeeting | app.py:55-63 | for well-spaced meetings a gap does not meet a given meeting or the buffer after it |
| SlotFinder.GapsChained | app.py:48-66 | for well-spaced meetings each gap ends no later than the next one starts |
| SlotFinder.GapsMissMeetings | app.py:48-66 | for well-spaced meetings no gap meets a meeting or the buffer after it |
| SlotFinder.SortedInside | app.py:48 | the sorted meetings of a day whose meetings lie inside it are ordered and lie inside it |
| SlotFinder.SlotsInsideDay | app.py:48-66 | when every meeting lies inside the day, every slot lies inside the day |
| SlotFinder.SlotsOrdered | app.py:48-66 | for well-spaced meetings inside the day, each slot ends no later than every later one starts |
| SlotFinder.SlotsMissMeetings | app.py:48-66 | for well-spaced meetings inside the day, no slot meets a meeting or the buffer after it |
| SlotFinder.KeepLongSnoc | app.py:60-66 | one more examined gap adds itself to the result exactly when it is long enough |
| SlotFinder.WellSpacedSlots | app.py:48-66 | when every meeting lies inside the day and consecutive sorted meetings are at least the buffer apart, the slots lie inside the day, are ordered and pairwise disjoint, and none meets a meeting or its trailing buffer |
| Schedule.Lunch | app.py:142 | the lunch block runs from 12:00 to 13:00, minute 720 to minute 780 |
| Schedule.MeetingStore.constructor | app.py:97-98 | the meeting list starts empty, and so holds only meetings that start before they end |
| Schedule.MeetingStore.Add | app.py:112-116 | a meeting is appended exactly when its start is before its end, otherwise the list is unchanged; only such meetings are ever stored |
| Schedule.MeetingStore.MeetingsForCalc | app.py:139-142 | the list for the calculations is the stored list followed by 12:00-13:00 exactly when lunch is avoided; every entry starts before it ends; the stored list is not changed |
| Schedule.MeetingMinutes | app.py:155 | an entry's length is `(time_to_float(e) - time_to_float(s)) * 60`, positive exactly when it starts before it ends |
| Schedule.TotalMinutes | app.py:152 | the total work time is `(end_hour - start_hour) * 60`, positive exactly when the day starts before it ends |
| Schedule.BusyMinutes | app.py:154-157 | over valid entries the busy time is at least one minute per entry |
| Schedule.FreeMinutes | app.py:159 | over valid entries the free time is at most the total minus one minute per entry |
| Schedule.BusyOfConcat | app.py:154-157 | the busy time of two lists joined is the sum of their busy times |
| Schedule.LunchCountsAsBusy | app.py:139-159 | the lunch option adds exactly 60 to the busy time and removes 60 from the free time |
| Schedule.BusyOfSorted | app.py:154-157 | the busy time is the same over the sorted list the sweep uses |
| Schedule.BusyOfInsert | app.py:154-157 | inserting an entry adds its length to the busy time |
| Schedule.PrefixGapsSum | app.py:55-63 | the gaps examined before the i-th sorted meeting sum to the cursor minus the start of the day, minus the busy time and the buffers of the first i meetings |
| Schedule.FreeMatchesGaps | app.py:152-159 | the free figure equals the summed lengths of every gap the sweep examines, short or negative ones included, plus one buffer per entry |
| Scenarios.NestedMeetingReopensTime | app.py:55-63 | with 10:00-15:00 and a nested 10:30-11:00 the slots are 09:00-10:00 and 11:00-17:00, the second starting inside the first meeting |
| Scenarios.GapsOfPair | app.py:48-68 | the gaps around two meetings in order, once their bounds are known |
| Scenarios.EarlyMeetingMovesCursorBack | app.py:49-66 | a meeting 07:00-08:00 before a 09:00 day makes the sweep suggest 08:00-17:00 |
| Scenarios.SortedDay | app.py:48 | meetings 09:00-10:00, 13:00-14:00 and the lunch block sort to 09:00, 12:00, 13:00 |
| Scenarios.GapsOfDay | app.py:48-68 | the four gaps of a day with those three entries, for any buffer |
| Scenarios.DayGaps | app.py:48-68 | the same four gaps, starting from the entries in the order they are added |
| Scenarios.DaySlots | app.py:48-68 | that day gives 10:00+b to 12:00 and 14:00+b to 17:00 for any buffer b up to 90 minutes: the buffer follows a meeting and never precedes one |
| Scenarios.PlainDayFigures | app.py:139-159 | that day's figures are 480, 180 and 300 minutes |
| Scenarios.OverlapMakesFreeNegative | app.py:152-159 | the same hour entered twice over a one-hour day gives a free figure of -60 |
| Scenarios.OverlapLeavesNoSlot | app.py:46-68 | over that day no slot is suggested |

## Left out

- The widgets, the session state and the delete buttons with their rerun
  (app.py:82-132) are user interface. Only the add guard of the "Add
  Meeting" button is modelled, as `MeetingStore.Add`.
- The timeline chart (`draw_calendar`) only draws.
- The CSV export only formats data for a download.
- Floating-point rounding is not modelled. Times are exact minutes, and the
  float hours are exact `real`s. The `int()` truncation of the three figures
  on display (app.py:163-165) is not modelled either: the figures are exact
  whole minutes.
- TimeRoundTrip, TimeText, MinutesToText and the slot values of FreeSlots hold in
  exact arithmetic only. With IEEE-754 doubles the page can show a bound one
  minute early: `int((h - hour) * 60)` turns 9.99999999999996 into 9, so
  after a 10-minute buffer the page prints 10:09, and
  `float_to_time(time_to_float(time(9, 10)))` is "09:09". The page can
  also drop a slot of exactly `duration` minutes, because `s - current`
  rounds below `duration / 60` (buffer 20 after a meeting ending at 10:00,
  duration 100, next meeting at 12:00). The model keeps that slot.
- TimeText: states the exact-arithmetic text of a time of day; the page
  can print one minute less after a float rounding, as above.
- MinutesToText: states the exact-arithmetic text of a slot bound; the page
  can print one minute less after a float rounding, as above.
- FreeSlots: keeps a gap of exactly `duration` minutes, which the page can
  drop after a float rounding, as above.
- The slot lines printed at app.py:191 are covered by `MinutesToText` for
  each bound, not as a whole line of text.
- The sweep works in minutes with a duration and buffer in minutes. The
  page divides everything by 60 first, which does not change any
  comparison in exact arithmetic.
- `FreeSlots` and `FindFreeSlots` take the working day and the entries
  directly. The page's own call at app.py:182-188 feeds them from
  `MeetingsForCalc` and the widget values, which are parameters here.
