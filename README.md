# chakra-time-picker in Dafny

A model of the logic of the chakra-time-picker widget. The widget is an
"HH : MM" time field with a dropdown that lists the hours and the minutes of
the day. The model covers four parts of the widget:

- **Time utilities** (`TimeUtils`, `src/utils/index.ts`).
  - `toTimeFormat` zero-pads a number.
  - `getDateFromHours` normalises the start time.
  - `addMinutes` adds a step to an `"H:M"` string, with a single carry into the
    hour.
  - `getTimeSlots(step)` pushes the day's slots into a list in a loop. It is
    modelled as a method with that loop, proved against the recursive
    specification `TimeLine`.
- **Buffered entry** (`BufferedEntry`, `src/Inputs.tsx`). The component keeps
  each field's characters in a local buffer. This is a class with the two
  buffers as fields.
  - Key presses change only the focused buffer.
  - Prop changes and the clear flag overwrite the buffers.
  - The parent's setters are never called.
- **Cursor entry** (`CursorEntry`, `src/Input.tsx`). The field values belong to
  the parent, and keys go to its setters. A class models the two values, the
  cursor `idx`, the `skip` flag and the requests to focus the minutes field.
  - The three effects are methods.
  - `Settle` runs the effects that a render triggers.
- **Dropdown** (`Picker`, `src/App.tsx`).
  - A `TimeLine` column lists the distinct hour or minute parts of the slots, in
    first-occurrence order.
  - `TimePicker` is the open/select/dismiss state.
  - `TimeInput.getValue` gives the text of the read-only field.

Two small modules support these:

- `Text`: decimal digits, `split(":")`, `[...s]` and `join("")`.
- `Shared`: the optional prop, the unit, and the six helpers imported from
  `./utils`.

The helpers' definitions are not part of this model. They are parameters, so
every property of the entry components holds whatever they compute.

Two behaviours of the code are easy to miss:

- The hour produced by `addMinutes` is never reduced modulo 24. When the first
  slot is "00:00", the hour stays below 24 only because the loop stops in time
  (`SlotInRange`). The first slot is "00:00" on every day that has a local
  midnight; see "Left out" for the days without one.
- The row count `(60 / step) * 24` is a floating-point bound in the loop guard.
  The loop therefore runs for exactly the `i` with `i * step < 1440`. This is
  also true when `step` does not divide 60: step 35 gives 42 rows.

## Model

| member | source | states |
|---|---|---|
| TimeUtils.ToTimeFormat | src/utils/index.ts:16-19 | zero-pads a number below 10; its facts are stated by `ToTimeFormatDigits` |
| TimeUtils.ToTimeFormatDigits | src/utils/index.ts:16-19 | the formatted number is all digits and reads back as itself; it has two characters exactly when it is at most 99, and a leading "0" exactly when it is below 10 |
| TimeUtils.Clock | src/utils/index.ts:25 | the template `${toTimeFormat(h)}:${toTimeFormat(m)}`, also used at line 40; `ClockReadsBack` states that it parses back to `h` and `m` |
| TimeUtils.ClockReadsBack | src/utils/index.ts:25 | `HH:MM` built from an hour and a minute splits and parses back to the same hour and minute |
| TimeUtils.StartIsMidnight | src/utils/index.ts:44 | the start "00:00" is the canonical rendering of hour 0, minute 0 |
| TimeUtils.DateFromHours | src/utils/index.ts:21-26 | formats the hour and minute the `Date` gives back; its facts are stated by `DateFromHoursReadsBack` and `FirstSlotIsStart` |
| TimeUtils.DateFromHoursReadsBack | src/utils/index.ts:21-26 | for an in-range time, the result is a five-character canonical "HH:MM" with the same hour and minute |
| TimeUtils.AddTime | src/utils/index.ts:29-38 | the total in minutes grows by exactly `step`; the carry is at most one hour, and happens exactly when the minute reaches 60; the minute stays below 60 for a step of at most an hour |
| TimeUtils.ParseTime | src/utils/index.ts:30 | `split(":").map(Number)` of an "H:M" text; `ClockReadsBack` states that it inverts the formatting |
| TimeUtils.AddMinutes | src/utils/index.ts:28-41 | adds `step` minutes with a single carry; its facts are stated by `AddTime` and `AddMinutesReadsBack` |
| TimeUtils.AddMinutesReadsBack | src/utils/index.ts:28-41 | the result is canonical and reads back as the previous time plus `step` minutes, with the hour never reduced modulo 24 |
| TimeUtils.SlotAt | src/utils/index.ts:48-57 | the text of entry `i`; its facts are stated by `SlotAtReadsBack`, `SlotAtClosedForm` and `SlotInRange` |
| TimeUtils.SlotTime | src/utils/index.ts:48-57 | the hour of entry `i` is at most `i`; its minute is below 60 for a step of at most an hour |
| TimeUtils.SlotTimeTotal | src/utils/index.ts:48-57 | entry `i` is exactly `i * step` minutes after midnight |
| TimeUtils.SlotAtReadsBack | src/utils/index.ts:48-57 | every entry is the canonical "HH:MM" text of its time |
| TimeUtils.FirstSlotIsStart | src/utils/index.ts:44-52 | the first entry is "00:00", and `getDateFromHours("00:00")` gives back "00:00" |
| TimeUtils.NextSlotIsAddMinutes | src/utils/index.ts:53-56 | each later entry is `addMinutes(step, previous entry)` |
| TimeUtils.SlotCount | src/utils/index.ts:45 | the number of loop iterations for a step; its facts are stated by `SlotCountIsRowCount` and `SlotCountOfDivisor` |
| TimeUtils.SlotCountIsRowCount | src/utils/index.ts:45-48 | the loop runs for `i` exactly when `i * step < 1440` |
| TimeUtils.SlotCountOfDivisor | src/utils/index.ts:45 | for a step dividing 60 the count is `(60 / step) * 24` |
| TimeUtils.SlotCountExamples | src/utils/index.ts:45 | steps 5, 10, 20 and 35 give 288, 144, 72 and 42 rows |
| TimeUtils.SlotAtClosedForm | src/utils/index.ts:48-57 | for `0 < step <= 60`, entry `i` is the zero-padded quotient and remainder of `i * step` by 60 |
| TimeUtils.SlotInRange | src/utils/index.ts:45-57 | every entry the loop emits is five characters "DD:DD", with an hour of at most 23 and a minute of at most 59 |
| TimeUtils.SlotsConsecutive | src/utils/index.ts:53-56 | consecutive entries are exactly `step` minutes apart |
| TimeUtils.SlotsIncreasing | src/utils/index.ts:53-56 | for a positive step, entries are strictly increasing in time, so they are pairwise distinct |
| TimeUtils.LargeStepOverflowsMinutes | src/utils/index.ts:33-40 | with step 90 the single carry yields "02:60" as the third entry |
| TimeUtils.TimeLine | src/utils/index.ts:47-58 | the specification of the pushed list has length `n` |
| TimeUtils.TimeLineAt | src/utils/index.ts:47-58 | position `k` of the time line is entry `k` |
| TimeUtils.TimeLineIsSlots | src/utils/index.ts:47-58 | every position of the time line is the entry of that index |
| TimeUtils.TimeLineStartsAtMidnight | src/utils/index.ts:44-52 | a non-empty time line starts with "00:00" |
| TimeUtils.NextTime | src/utils/index.ts:49-57 | one loop iteration: the pushed time is entry `i`, both for the first branch and for the `addMinutes` branch |
| TimeUtils.GetTimeSlots | src/utils/index.ts:43-61 | the result has `SlotCount(step)` rows, equals the time line of that length, and holds entry `k` at position `k`; it is empty for a negative step |
| Text.NatToString | src/utils/index.ts:18 | `${n}` of a natural number; `NatToStringDigits` states that it is all digits and reads back as `n` |
| Text.DecimalValue | src/utils/index.ts:30 | `Number` of a digit string; `NatToStringDigits` and `DecimalValueLeadingZero` state how it reads the decimal rendering |
| Text.NatToStringDigits | src/utils/index.ts:17-18 | the decimal rendering of `n` is non-empty and all digits, and reads back as `n` |
| Text.DecimalValueLeadingZero | src/utils/index.ts:18 | a leading "0" does not change a decimal value |
| Text.Split | src/utils/index.ts:30 | `split` gives at least one part, no part holds the separator, and joining the parts gives back the input |
| Text.SplitWithoutSeparator | src/utils/index.ts:30 | a string without the separator splits into itself alone |
| Text.SplitAtFirstSeparator | src/utils/index.ts:30 | `a + ":" + b`, with no ":" in `a`, splits into `a` followed by the parts of `b` |
| Text.Chars | src/Inputs.tsx:26 | `[...s]`, one string per character; `ConcatChars` states that joining it gives `s` back |
| Text.Concat | src/Inputs.tsx:106 | `join("")`; `ConcatChars` states that it inverts `Chars` |
| Text.ContainsDigit | src/Inputs.tsx:92 | the unanchored digit test on the key name; `ArrowKeysHoldNoDigit`, `IgnoredKey` and `DigitKeyShiftsIn` state what it lets through |
| Text.ConcatChars | src/Inputs.tsx:82-106 | spreading a string into characters and joining them gives the string back |
| Shared.Increase | src/Inputs.tsx:77 | the unit's increment helper, as also chosen at src/Input.tsx:88; `ArrowShowsHelperResult` and `KeyDown` state that an ArrowUp shows its result |
| Shared.Decrease | src/Inputs.tsx:78 | the unit's decrement helper, as also chosen at src/Input.tsx:89; `ArrowShowsHelperResult` and `KeyDown` state that an ArrowDown shows its result |
| Shared.ArrowKeysHoldNoDigit | src/Inputs.tsx:80-92 | the arrow key names contain no digit, so the digit test never fires on them |
| Shared.Truthy | src/Inputs.tsx:25-31 | a prop is truthy when it is set and non-empty; `LocalValueText` and `TimeInputShowsEntryText` state what follows from it |
| Shared.LocalValue | src/Inputs.tsx:25-31 | a field's initial buffer; `LocalValueText` states that it joins to the value or to "--" |
| Shared.LocalValueText | src/Inputs.tsx:25-31 | a field's buffer joins to its value, or to "--" when the value is unset |
| BufferedEntry.ShiftIn | src/Inputs.tsx:94-95 | the buffer keeps its length, ends with the key, and otherwise holds the old entries moved one place left |
| BufferedEntry.NextBuffer | src/Inputs.tsx:80-96 | the buffer after one key; its facts are stated by `ShiftIn`, `IgnoredKey`, `DigitKeyShiftsIn` and `ArrowShowsHelperResult` |
| BufferedEntry.IgnoredKey | src/Inputs.tsx:92 | a key that is not an arrow and holds no digit leaves the buffer as it is |
| BufferedEntry.DigitKeyShiftsIn | src/Inputs.tsx:92-96 | a key holding a digit anywhere is shifted in whole; a two-entry buffer becomes `[old[1], key]` |
| BufferedEntry.ArrowShowsHelperResult | src/Inputs.tsx:80-90 | after an arrow, the field shows exactly the increment or decrement of what it showed |
| BufferedEntry.DigitKeysKeepTwoEntries | src/Inputs.tsx:92-96 | digit keys keep a two-entry buffer at two entries; after two or more keys it holds the last two |
| BufferedEntry.Inputs.constructor | src/Inputs.tsx:25-31 | each buffer starts as its prop's characters, or as ["-","-"] |
| BufferedEntry.Inputs.HoursText | src/Inputs.tsx:106 | the hours field's displayed text, `localHours.join("")`; `KeyDown` states how it changes under the arrows |
| BufferedEntry.Inputs.MinutesText | src/Inputs.tsx:122 | the minutes field's displayed text, `localMinutes.join("")`; `KeyDown` states how it changes under the arrows |
| BufferedEntry.Inputs.KeyDown | src/Inputs.tsx:68-97 | only the focused buffer changes, to the next buffer for the key under that unit's helpers; after an arrow the focused field shows the helper's result for what it showed; no parent value is part of the change |
| BufferedEntry.Inputs.SyncHours | src/Inputs.tsx:36-40 | a set hours prop replaces the hours buffer with its characters, an unset one leaves it; minutes are untouched |
| BufferedEntry.Inputs.SyncMinutes | src/Inputs.tsx:42-46 | a set minutes prop replaces the minutes buffer with its characters, an unset one leaves it; hours are untouched |
| BufferedEntry.Inputs.Clear | src/Inputs.tsx:48-53 | a raised clear flag sets both buffers to ["-","-"]; otherwise nothing changes |
| CursorEntry.Adjusted | src/Input.tsx:84-86 | the helpers receive the value, or "00" when the field is unset or shows "--" |
| CursorEntry.Inputs.constructor | src/Input.tsx:33-36 | the cursor starts at 0, with no skip and no focus request |
| CursorEntry.Inputs.KeyDown | src/Input.tsx:77-116 | arrows set the focused value to the helper's result and keep `idx` and `skip`; a key without a digit changes nothing; an early skip sets "0"+key, `idx` 0 and `skip`; any other digit sets `setNewTime(...)` and increments `idx`; the other field is untouched |
| CursorEntry.Inputs.IndexEffect | src/Input.tsx:41-46 | past the second digit, the cursor returns to 0 and a skip is raised |
| CursorEntry.Inputs.SkipEffect | src/Input.tsx:48-54 | a raised skip requests the minutes field's focus, resets the cursor and is lowered |
| CursorEntry.Inputs.ClearEffect | src/Input.tsx:56-62 | a raised clear flag unsets both values and resets the cursor |
| CursorEntry.Inputs.Settle | src/Input.tsx:41-54 | after the effects the state is settled (`idx` at most 1, no skip); a skip, from either field, resets the cursor and focuses the minutes field once |
| CursorEntry.Inputs.HandleKey | src/Input.tsx:41-116 | from a settled state, a key and its effects leave a settled state; a key that is not an arrow and holds no digit leaves the focused value as it was; the second digit or an early skip returns the cursor to 0 and moves the focus to minutes |
| Picker.FirstIndex | src/App.tsx:22 | the position where a value first occurs holds it, and no earlier position does |
| Picker.FirstIndexUnique | src/App.tsx:22 | any position holding the value, with no earlier occurrence, is the first index |
| Picker.Distinct | src/App.tsx:22 | `[...new Set(xs)]`; its facts are stated by `DistinctIsSetOf` and `DistinctKeepsFirstOccurrenceOrder` |
| Picker.DistinctIsSetOf | src/App.tsx:22 | `[...new Set(xs)]` has no duplicates and holds exactly the values of `xs` |
| Picker.DistinctKeepsFirstOccurrenceOrder | src/App.tsx:22 | every distinct value occurs in `xs`, and the distinct values are ordered by their first occurrence in `xs` |
| Picker.TimeLineRows | src/App.tsx:20-22 | the `rows` of a column; its facts are stated by `TimeLineRowsAreDistinctParts`, `HourColumnInOrder` and `MinuteColumnInOrder` |
| Picker.TimeLineRowsAreDistinctParts | src/App.tsx:20-22 | every row is a `pos` part of the items; a column lists each `pos` part exactly once, and nothing else, in first-occurrence order |
| Picker.Pos | src/App.tsx:20 | the part index of a unit: 0 for hours, 1 for minutes; `TimeLineRowsAreDistinctParts` and the column lemmas state what it selects |
| Picker.Components | src/App.tsx:22 | `list.map((item) => item.split(":")[pos])`; `TimeLineRowsAreDistinctParts` and `SlotsOfDivisor` state its entries |
| Picker.Component | src/App.tsx:22 | `item.split(":")[pos]`, missing when there is no such part; `ClockComponents` and `SlotParts` state what it gives for a slot |
| Picker.ClockComponents | src/App.tsx:22 | the two ":"-parts of "HH:MM" are the two padded numbers |
| Picker.SlotParts | src/App.tsx:22 | slot `k`'s parts are the padded quotient and remainder of `k * step` by 60 |
| Picker.MinuteOfMultiple | src/App.tsx:22 | for a step dividing 60, `k * step mod 60` is a multiple of the step |
| Picker.HourPartOfSlot | src/App.tsx:22 | every hour part of a slot is an hour 00 to 23 |
| Picker.MinutePartOfSlot | src/App.tsx:22 | every minute part of a slot is a multiple of the step below 60 |
| Picker.HourStartSlot | src/App.tsx:22 | some slot starts each hour |
| Picker.SlotShowingHour | src/App.tsx:22 | each hour 00 to 23 is the hour part of some slot |
| Picker.SlotShowingMinute | src/App.tsx:22 | each multiple of the step below 60 is the minute part of some slot |
| Picker.HourColumnIsEveryHour | src/App.tsx:22 | for a step dividing 60, the hours column holds exactly 00 to 23, each once |
| Picker.MinuteColumnIsEveryStep | src/App.tsx:22 | for a step dividing 60, the minutes column holds exactly the multiples of the step below 60, each once |
| Picker.ToTimeFormatInjective | src/App.tsx:22 | distinct numbers are padded to distinct texts, so distinct hours or minutes give distinct rows |
| Picker.SlotOfHour | src/App.tsx:22 | with `c` slots to the hour, slot `n` falls in hour `n / c` at minute `(n % c) * step` |
| Picker.SlotColumnsAt | src/App.tsx:22 | slot `k`'s hour part is hour `k / c` and its minute part is minute row `k % c` |
| Picker.DistinctOfBlocks | src/App.tsx:22 | a list of blocks of `c` equal entries, each block with a new label, has as its distinct values the labels of the blocks it reaches, in block order |
| Picker.DistinctOfCycle | src/App.tsx:22 | a list cycling through `c` new labels has as its distinct values the labels of its first `c` entries, in order |
| Picker.HourLabelsFresh | src/App.tsx:22 | the label of hour `q` is none of the labels of hours 0 to `q - 1` |
| Picker.MinuteLabelsFresh | src/App.tsx:22 | the label of minute row `j` is none of the labels of rows 0 to `j - 1` |
| Picker.SlotsOfDivisor | src/App.tsx:22 | for a step dividing 60, the time line is 24 blocks of `60 / step` slots, slot `k` showing hour `k / c` and minute row `k % c` |
| Picker.HourColumnOfBlocks | src/App.tsx:22 | 24 blocks of `c` entries, block `q` showing hour `q`, give the rows 00 to 23 in order |
| Picker.MinuteColumnOfCycle | src/App.tsx:22 | entries cycling through the minute rows of a step give those rows, in order |
| Picker.HourColumnInOrder | src/App.tsx:22 | for a step dividing 60, the hours column is exactly 00, 01, ..., 23, in that order |
| Picker.MinuteColumnInOrder | src/App.tsx:22 | for a step dividing 60, the minutes column is exactly 00, step, 2 * step, ... below 60, in that order |
| Picker.PickerColumns | src/App.tsx:60-118 | over `getTimeSlots(5)`, the hours column is exactly the list 00, 01, ..., 23 and the minutes column exactly the list 00, 05, ..., 55, each without duplicates |
| Picker.GetValue | src/App.tsx:134-136 | `TimeInput`'s `getValue`; its facts are stated by `TimeInputShowsEntryText` |
| Picker.TimeInputShowsEntryText | src/App.tsx:134-136 | the read-only field shows the value or "--", which is what the entry fields' buffers join to |
| Picker.TimePicker.constructor | src/App.tsx:56-60 | the dropdown starts closed with nothing selected, over the rows of `getTimeSlots(5)` |
| Picker.TimePicker.ShowTimeline | src/App.tsx:82-93 | the icon opens the dropdown and keeps the selections |
| Picker.TimePicker.Select | src/App.tsx:107-118 | a click on a row sets only that column's selection |
| Picker.TimePicker.HideTimeLine | src/App.tsx:63-75 | an outside mousedown closes the dropdown and clears both selections, and passes them on only when both are set; any other mousedown changes nothing |

## Left out

- `getDateFromTime` (src/utils/index.ts:4-14) builds a JavaScript `Date` for today, which depends on the clock and the time zone. `TimeUtils.DateFromHours` covers only an in-range hour and minute that the `Date` hands back unchanged. `getTimeSlots` passes it only "00:00", and that comes back unchanged on every day that has a local midnight.
- `TimeUtils.DateFromHours`: does not model days whose local midnight is skipped by a daylight-saving change (in some time zones the clocks jump from 00:00 to 01:00). On such a day the `Date` for "00:00" reports hour 1, so `getTimeSlots(5)` starts at "01:00" and ends at "24:55", and the hours column lists "24" but no "00". The model assumes a local midnight, because the time zone and the date are outside it.
- `TimeUtils.DateFromHours`: does not model the `Date` normalisation of an out-of-range hour or minute, because it requires the in-range case.
- `TimeUtils.ToTimeFormat`: returns the decimal string for numbers of 10 and above. The source returns the number itself there, and every caller puts it into a template literal.
- `TimeUtils.AddMinutes`: requires both ":"-parts to be digit strings. The `NaN` a malformed string would give through `Number` is not modelled.
- `TimeUtils.GetTimeSlots`: takes `step` as an integer. The source accepts any JavaScript number: a fractional step such as 7.5 gives entries like "00:07.5", and is not modelled.
- `TimeUtils.GetTimeSlots`: excludes step 0. There the bound is `Infinity` and the loop never ends.
- The row count `(60 / step) * 24` is read with exact arithmetic, not as an IEEE double.
- Steps over 60: the single carry can then produce a minute of 60 or more, for example with step 90 (`LargeStepOverflowsMinutes`). The closed form and the range lemmas cover `0 < step <= 60`.
- The six helpers `incrementHours`, `decrementHours`, `incrementMinutes`, `decrementMinutes`, `shouldSkipAsap` and `setNewTime` are imported from `./utils`, but their definitions are not part of this model. They are parameters here, so their wrap-around and digit-assembly rules are not modelled.
- `CursorEntry.Inputs`: the field values are fields of the class, and each key stores the setter's argument in them. This assumes that the parent passes back exactly what the setter was given (src/Input.tsx:33-34), as a plain `useState` setter does; a parent that transforms or drops the value is not modelled.
- React's scheduling is reduced to method calls. Each effect is a method. `CursorEntry.Inputs.Settle` runs the `idx` effect, then the `skip` effect, which is the order in which their guards can fire. The dependency arrays of the effects are not modelled.
- DOM wiring is left out: `document.addEventListener`, `containerRef.contains`, `handleSelect` on click, and the `.select()` focus calls. A focus request on the minutes field is counted in `minutesSelections`, and whether a mousedown landed outside is a parameter.
- `handleOnChange` is a no-op in both entry components, and is not modelled.
- `ChakraTimePicker` and `App` only wire state and are not modelled. The values that `HideTimeLine` passes to the parent are returned instead.
- Rendering, styling, `src/stepper/StepperSlder.tsx` and the commented-out `handleOnChange` of `TimeInput` are not modelled.
- The test file `src/test/utils.test.ts` imports fixtures that are not part of this model. It is used only as evidence that steps 10, 20 and 35, the last of which does not divide 60, are supported inputs, and for the two-character padding.
