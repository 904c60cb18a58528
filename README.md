# CurrentTimeBlock: the "now on stage" resolver

This project models the "now" block of the festival front end
(`Frontend/src/components/main/CurrentTimeBlock.tsx`). The block takes the day's
timetable and works out which item is on at the current time of day. It then
shows that item with the items before and after it, or a message saying the day
has not started, is over, has no items, or is still loading.

The model has four modules:

- `Wrappers` (`wrappers.dfy`): `Option`, standing for the component's `null` / `undefined`.
- `Clock` (`clock.dfy`): "HH:MM" strings.
  - Reading follows the component: `split(':')`, `parseInt` of the first two fields, then `hour * 60 + minute`.
  - Writing follows `getCurrentTime`: `String(n).padStart(2, '0')` for the hour and the minute, joined by ':'.
  - Both directions of the round trip are proved.
- `Resolver` (`resolver.dfy`): `getCurrentStatusIndex`.
  - `Resolve` is the classification as a function of the minutes.
  - `Classify` is the source's early-return loop, with its invariant, proved equal to `Resolve`.
  - `GetCurrentStatusIndex` converts the strings to minutes and calls `Classify`.
  - Lemmas state what the classification means over sorted times: exact windows, the last-item case, non-overlap and the partition of the day.
- `TimeBlock` (`time_block.dfy`): the component around the resolver.
  - the guard that skips the resolver on an empty timetable;
  - the previous / current / next lookup;
  - the choice of what is shown;
  - the class `CurrentTimeBlock`, whose fields `nowTime`, `timetable` and `loading` are changed by the minute tick and by the start, success and failure of a fetch.

The resolver's `{ status, index }` result becomes `Status = Before | During(index) | After`.
The source pairs `'during'` with a number and the other two statuses with `null`, so no combination is lost.

Sortedness of the timetable is never a precondition of the resolver, because the
source does not check it. Only the lemmas that describe the meaning of the answer
assume it (`Sorted`). The index bound and the two range tests hold for any order.

For an empty timetable the component itself (line 86) produces `before` with a `null` index.
The model follows that code: `ComponentStatus` gives `Before`.
The "no schedule" message comes from the view's separate test of the timetable's length (line 101), modelled in `View`.

## Model

| member | source | states |
|---|---|---|
| Clock.Decimal | Frontend/src/components/main/CurrentTimeBlock.tsx:11-13 | `String(n)` of a natural number is a non-empty run of digits, a single digit exactly when n < 10 |
| Clock.PadStart | Frontend/src/components/main/CurrentTimeBlock.tsx:11-13 | `padStart(width, fill)` yields length max(\|s\|, width) and keeps a digit string all digits when the fill is a digit; its contents are fixed by `PadStartContents` |
| Clock.PadStartContents | Frontend/src/components/main/CurrentTimeBlock.tsx:11-13 | the padded string ends with `s` unchanged, and every character in front of it is `fill` |
| Clock.TwoDigits | Frontend/src/components/main/CurrentTimeBlock.tsx:11-13 | a padded field is a numeral, of length exactly 2 for values below 100 |
| Clock.FirstColon | Frontend/src/components/main/CurrentTimeBlock.tsx:22-23 | where `split(':')` cuts: the index of the first ':' (or the length when none), with no ':' before it |
| Clock.FormatCanonical | Frontend/src/components/main/CurrentTimeBlock.tsx:9-14 | for an hour and a minute below 100, `getCurrentTime`'s string has the "HH:MM" shape: two digits, ':', two digits |
| Clock.ParseDecimal | Frontend/src/components/main/CurrentTimeBlock.tsx:11-23 | `parseInt(String(n))` is n |
| Clock.ParseLeadingZero | Frontend/src/components/main/CurrentTimeBlock.tsx:11-23 | a leading '0' added by the pad does not change the value `parseInt` reads |
| Clock.ParseTwoDigits | Frontend/src/components/main/CurrentTimeBlock.tsx:11-23 | `parseInt(String(n).padStart(2, '0'))` is n, for every n |
| Clock.FormatThenParse | Frontend/src/components/main/CurrentTimeBlock.tsx:9-23 | about `FormatTime` (the string `getCurrentTime` returns) and the readers `HourField` / `MinuteField` (`split(':')[0]` / `[1]`), `ParseDigits` (`parseInt`), `Hour`, `Minute` and `Minutes` (`h * 60 + m`): the formatted clock time is well formed, its fields read back as the hour and minute, and its minutes are hour * 60 + minute |
| Clock.CanonicalMinutes | Frontend/src/components/main/CurrentTimeBlock.tsx:22-29 | about `HourField`, `MinuteField`, `ParseDigits`, `Hour` and `Minute`: an "HH:MM" string is well formed and reads as the two-digit hour and minute it spells |
| Clock.TwoDigitsOfParse | Frontend/src/components/main/CurrentTimeBlock.tsx:11-23 | padding the value of any two-digit field gives that field back, leading zero included |
| Clock.ParseThenFormat | Frontend/src/components/main/CurrentTimeBlock.tsx:9-23 | reading an "HH:MM" string and formatting its hour and minute again gives the same string |
| Resolver.TimesOf | Frontend/src/components/main/CurrentTimeBlock.tsx:24-40 | the per-item minutes, in item order, one per item |
| Resolver.FirstWindow | Frontend/src/components/main/CurrentTimeBlock.tsx:34-45 | the first index from `from` whose half-open window holds now; nothing when no later window does |
| Resolver.Resolve | Frontend/src/components/main/CurrentTimeBlock.tsx:31-47 | `before` exactly when now is earlier than the first time, `after` exactly when it is not and is later than the last time, and a `during` index is always a valid item index (no ordering needed) |
| Resolver.Classify | Frontend/src/components/main/CurrentTimeBlock.tsx:31-47 | the range tests and the left-to-right scan of windows with early return give exactly `Resolve` |
| Resolver.GetCurrentStatusIndex | Frontend/src/components/main/CurrentTimeBlock.tsx:18-48 | on a non-empty list of well-formed times, the answer is `Resolve` of the current minutes against the item minutes |
| Resolver.FirstMatchWins | Frontend/src/components/main/CurrentTimeBlock.tsx:34-44 | in any order, when window i holds now and no earlier window does, the answer is `during(i)` |
| Resolver.NoWindowMeansLast | Frontend/src/components/main/CurrentTimeBlock.tsx:45-47 | in any order, within the range and with no window holding now, the answer is the last index |
| Resolver.ResolveInWindow | Frontend/src/components/main/CurrentTimeBlock.tsx:34-44 | over sorted times, now in `[t_i, t_(i+1))` gives `during(i)`: lower bound inclusive, upper exclusive |
| Resolver.ResolveAtLastTime | Frontend/src/components/main/CurrentTimeBlock.tsx:32-47 | over sorted times, now equal to the last time is `during(last)`, not `after` |
| Resolver.WindowExists | Frontend/src/components/main/CurrentTimeBlock.tsx:34-45 | between the first and the last time (exclusive), some window holds now |
| Resolver.ResolveDuringIff | Frontend/src/components/main/CurrentTimeBlock.tsx:31-47 | over sorted times, `during(i)` comes out if and only if item i owns now, in both directions |
| Resolver.CoversUnique | Frontend/src/components/main/CurrentTimeBlock.tsx:34-47 | over sorted times, no two items own the same minute |
| Resolver.ResolvePartition | Frontend/src/components/main/CurrentTimeBlock.tsx:31-47 | over sorted times, every minute is before, after, or owned by the item the answer names |
| Resolver.SingleItem | Frontend/src/components/main/CurrentTimeBlock.tsx:31-47 | a one-item day: earlier is before, the exact time is `during(0)`, later is after |
| TimeBlock.ComponentStatus | Frontend/src/components/main/CurrentTimeBlock.tsx:86 | an empty timetable gives before with no index (the resolver is not consulted); a `during` index is within the timetable |
| TimeBlock.At | Frontend/src/components/main/CurrentTimeBlock.tsx:87-89 | `timetable[k]` is an item exactly for 0 <= k < length, and then the k-th item |
| TimeBlock.SelectNeighbours | Frontend/src/components/main/CurrentTimeBlock.tsx:87-89 | for `during(i)` the current item is item i, previous is absent exactly when i = 0 and otherwise item i-1, next is absent exactly when i is the last index and otherwise item i+1; all absent for before and after |
| TimeBlock.LookUpNeighbours | Frontend/src/components/main/CurrentTimeBlock.tsx:87-89 | the three guarded lookups give exactly `SelectNeighbours` |
| TimeBlock.View | Frontend/src/components/main/CurrentTimeBlock.tsx:86-151 | the loading notice shows exactly while loading, the no-schedule notice exactly when loaded and empty; otherwise the not-started notice exactly for `before` and the finished notice exactly for `after`; something always shows, and the "during" block shows the item at the index the status names, with the previous and next items of `SelectNeighbours` |
| TimeBlock.MiddleOfThree | Frontend/src/components/main/CurrentTimeBlock.tsx:31-89 | for three non-decreasing times with now in the middle window, the status is `during(1)` and the block shows the middle item between the other two |
| TimeBlock.ThreeItemExample | Frontend/src/components/main/CurrentTimeBlock.tsx:31-89 | items at "10:00", "11:00", "12:00" and now "11:30": the middle item is on, the first before it, the last after it |
| TimeBlock.CurrentTimeBlock.constructor | Frontend/src/components/main/CurrentTimeBlock.tsx:57-59 | on mount, `nowTime` is the test time or the formatted clock time, the timetable is empty, loading is on, and the loading notice shows |
| TimeBlock.CurrentTimeBlock.Tick | Frontend/src/components/main/CurrentTimeBlock.tsx:61-68 | without a test time, a tick sets `nowTime` to the formatted clock time, whose minutes are hour * 60 + minute; nothing else changes |
| TimeBlock.CurrentTimeBlock.StartFetch | Frontend/src/components/main/CurrentTimeBlock.tsx:70-84 | a fetch for a date turns loading on and keeps the old timetable; the loading notice shows |
| TimeBlock.CurrentTimeBlock.FetchSucceeded | Frontend/src/components/main/CurrentTimeBlock.tsx:74-81 | the fetched data replaces the timetable and loading ends; an empty result shows the no-schedule notice |
| TimeBlock.CurrentTimeBlock.FetchFailed | Frontend/src/components/main/CurrentTimeBlock.tsx:76-81 | a failure empties the timetable and ends loading; the status is before and the no-schedule notice shows |
| TimeBlock.CurrentTimeBlock.Render | Frontend/src/components/main/CurrentTimeBlock.tsx:86-89 | the resolver is called only on a non-empty timetable; the status and previous / current / next items are those of `ComponentStatus` and `SelectNeighbours` |

## Left out

- JSX markup, Tailwind classes, the framer-motion animation and the lucide icon (lines 91-156) are presentation. Only the choice of what is shown is modelled (`View`).
- `new Date()` (line 10) is the wall clock. The constructor and `Tick` receive the hour and minute as parameters.
- `setInterval` / `clearInterval` (lines 61-68) are timer lifecycle. A tick is the method `Tick`, allowed only when there is no test time.
- `fetchTimetableByDate` and the async effect (lines 70-84) are a network call whose code is not part of this model. Its outcome arrives as the events `FetchSucceeded` and `FetchFailed`.
- The source has no guard against a stale fetch, so overlapping fetches for different dates may finish in either order. The model makes no claim about which result is kept.
- `console.error` (line 77) is logging.
- The model requires well-formed times: both `split(':')` fields of every time must be plain, non-empty runs of decimal digits (`Clock.WellFormed`). It does not model the NaN that `parseInt` gives for a field with no leading digit, nor its lenient reading of a sign, leading white space or trailing non-digits (`parseInt("30pm")` is 30).
- TimeBlock.CurrentTimeBlock.constructor: requires a given test time to be well formed. In the source, an empty-string `testTime` is falsy and lets the timer run; the model does not cover that case.
- Resolver.GetCurrentStatusIndex: converts every item time to minutes once, before the scan, instead of inside the loop. The conversion is pure, so the answer is the same.
- Clock.PadStart: its own ensures give only the length and that digits stay digits. The contents (`s` kept at the end, `fill` in front) are proved in the separate lemma `Clock.PadStartContents`, so that proofs about `TwoDigits` do not have to carry the extra facts.
- JavaScript numbers are modelled as unbounded integers. Hours and minutes of a clock are far below any precision limit.
- `Backend/Phoenixia/src/main/java/com/cloud/phoenixia/dto/ScheduleRequestDTO.java` is a validation-annotated data carrier with no logic. It is not part of this model.
