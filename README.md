# Spindle warm-up editor: a Dafny model

The program is a single-page editor for spindle warm-up routines of a CNC
machine. The user keeps an ordered list of spindle commands. Each command
holds a speed in RPM for a duration in milliseconds. The editor shows the
list in three forms:

- the start time of every command, rendered as `mm:ss.mmm`;
- a time/RPM staircase plot;
- a G-code program: a title comment, then a spindle line and a dwell line
  per command, then a closing stop and program end.

This project models that logic, which lives in `src/App.tsx`. It also proves
what each piece promises.

- `wrappers.dfy` (`Wrappers`): the `Option` type.
- `js_text.dfy` (`JsText`): the JavaScript primitives the editor relies on,
  for integer values:
  - `Number.prototype.toString`, with a decimal parser as its inverse;
  - `padStart` with a `"0"` fill;
  - the `%` operator: the remainder of a division truncated toward zero, which takes the sign of the dividend.
- `text_lines.dfy` (`TextLines`): text made of newline-terminated lines, and
  the split that recovers the lines.
- `commands.dfy` (`Commands`):
  - the `SpindleCommand` record;
  - update by id (the `map` in the RPM and duration handlers);
  - remove by id (the `filter` in the Remove handler);
  - the `WarmupEditor` class, which holds the command list and the id
    counter as fields and is changed by `addSpindleCommand`, update and
    remove.
- `timeline.dfy` (`Timeline`):
  - `calcStartTimeMs`, as a loop proved against a prefix-sum specification;
  - `totalTime`, the reduce;
  - `formatTimeMs`, together with a parser that reads its output back;
  - the `x`/`y` plot-projection loop;
  - how each kind of edit moves the timeline.
- `gcode.dfy` (`GCode`):
  - `generateGCode`, as a loop with its `continue` branch, proved equal to
    a line-by-line specification of the program;
  - the line layout of the program;
  - a decoder that reads the program back, so the text is shown to carry the
    title and every (rpm, duration) pair in order.

Times, speeds and durations are mathematical integers. Ids are natural
numbers, because the counter starts at 0.

## Model

| member | source | states |
|---|---|---|
| JsText.NatToString | src/App.tsx:46 | the text of a non-negative number is non-empty, all digits, and has no leading zero unless it is "0" |
| JsText.IntToString | src/App.tsx:46 | the text of an integer is non-empty, starts with a minus sign exactly when the value is negative, and is digits after that sign |
| JsText.NatToStringValue | src/App.tsx:46 | reading the decimal text of `n` back gives `n` |
| JsText.IntToStringShape | src/App.tsx:46 | the text of any integer is non-empty, holds only digits and a sign, and never a line break |
| JsText.ParseInt | src/App.tsx:46 | partner of the text written there: the parser succeeds exactly on an optional minus sign followed by at least one digit |
| JsText.IntToStringRoundTrip | src/App.tsx:46 | parsing the text of any integer, negative ones included, gives the integer back |
| JsText.PadStart | src/App.tsx:46 | `padStart(width, "0")` has length max(len, width), ends with the original text, and everything before it is "0" |
| JsText.PaddedNatValue | src/App.tsx:46 | a zero-padded decimal is still all digits and still has the number's value |
| JsText.JsRem | src/App.tsx:44-45 | JavaScript `%`: the remainder lies strictly between -b and b, takes the sign of the dividend, and `a == b * trunc(a / b) + r` |
| TextLines.UnlinesAppend | src/App.tsx:50-64 | partner of the text built there: writing newline-terminated lines distributes over concatenating the line lists |
| TextLines.FirstNewline | src/App.tsx:50-64 | partner of the text built there, used to read it back; at the first line break of a text, nothing before it is a line break and it is one |
| TextLines.SplitUnlines | src/App.tsx:50-64 | partner of the text built there: splitting text written line by line gives back exactly those lines, when none holds a line break |
| Commands.UpdateById | src/App.tsx:127-135 | the map keeps the length; position `i` is patched when its id matches and kept otherwise |
| Commands.UpdateKeepsIds | src/App.tsx:127-148 | updating keeps every id in place |
| Commands.UpdateUnknownId | src/App.tsx:127-148 | updating an id no command carries leaves the list unchanged |
| Commands.UpdateAt | src/App.tsx:140-148 | with distinct ids, editing the command at position `k` changes exactly that element |
| Commands.RemoveById | src/App.tsx:153 | the filter keeps exactly the commands whose id differs and never grows the list |
| Commands.RemoveAppend | src/App.tsx:153 | removal distributes over concatenation, so the survivors keep their relative order |
| Commands.RemoveUnknownId | src/App.tsx:153 | removing an id no command carries leaves the list unchanged |
| Commands.RemoveAt | src/App.tsx:153 | with distinct ids, removing the id at position `k` deletes exactly that element and closes the gap |
| Commands.AddKeepsIdsFresh | src/App.tsx:20-30 | appending under a counter above every id keeps ids distinct and below the bumped counter |
| Commands.UpdateKeepsIdsFresh | src/App.tsx:127-148 | an update keeps ids distinct and below the counter |
| Commands.RemoveKeepsIdsFresh | src/App.tsx:153 | a removal keeps ids distinct and below the counter |
| Commands.WarmupEditor.constructor | src/App.tsx:15-17 | the editor starts with an empty list and the counter at 0, which satisfies the id invariant |
| Commands.WarmupEditor.AddSpindleCommand | src/App.tsx:20-30 | the list gains exactly one element at its end, `{id: counter, rpm: 0, durationMs: 0}`; the counter goes up by one; the id invariant is kept |
| Commands.WarmupEditor.UpdateCommand | src/App.tsx:126-148 | the list becomes its update by id; the counter is unchanged; the id invariant is kept |
| Commands.WarmupEditor.RemoveCommand | src/App.tsx:152-154 | the list becomes its removal by id; the counter is unchanged; the id invariant is kept |
| Timeline.SumAppend | src/App.tsx:32-38 | the sum of durations of a concatenation is the sum of the two sums |
| Timeline.StartTimeStep | src/App.tsx:34-35 | one more position adds the duration of the command there, or 0 past the end |
| Timeline.CalcStartTimeMs | src/App.tsx:32-38 | the loop returns the sum of the durations of the commands before `index`, and missing commands count 0 |
| Timeline.FoldIsSum | src/App.tsx:40 | the left fold from `acc` equals `acc` plus the sum of the durations |
| Timeline.TotalTime | src/App.tsx:40 | the reduce from 0 over the durations is their sum |
| Timeline.StartTimeEnds | src/App.tsx:32-40 | position 0 starts at 0, and every position at or past the end starts at `totalTime` |
| Timeline.StartTimeGap | src/App.tsx:32-38 | the difference of two start times is the sum of the durations between the two positions |
| Timeline.SumZeroIff | src/App.tsx:32-38 | with non-negative durations, a sum is non-negative, and it is zero exactly when every duration is zero |
| Timeline.StartTimeMonotone | src/App.tsx:32-38 | with non-negative durations, a later index never starts earlier |
| Timeline.StartTimeEqualIff | src/App.tsx:32-38 | with non-negative durations, two positions start together exactly when every command between them lasts 0 ms |
| Timeline.ClockOf | src/App.tsx:43-45 | for `t >= 0` the minutes, seconds and milliseconds are in range and add back up to `t` |
| Timeline.NatToStringShort | src/App.tsx:46 | numbers below 100 take at most two digits, and numbers below 1000 at most three |
| Timeline.PaddedField | src/App.tsx:46 | a padded non-negative field is at least as wide as asked, exactly as wide when it fits, and parses back |
| Timeline.ParseTimeFields | src/App.tsx:46 | partner of the text written there: `mm:ss.mmm` assembled from parsable fields reads back as the value of those fields |
| Timeline.FieldWidths | src/App.tsx:46 | with seconds and milliseconds in range, the minutes field (of any sign) takes at least two characters, seconds exactly two and milliseconds exactly three |
| Timeline.RenderedFields | src/App.tsx:46 | with seconds and milliseconds in range and minutes of any sign, each padded field has its width and parses back to its number |
| Timeline.RenderClockShape | src/App.tsx:46 | the rendering ends in `:ss.mmm`, with the separators at 7 and 4 characters from the end |
| Timeline.MinutesField | src/App.tsx:43-46 | the padded minutes field of any sign is at least two characters wide and parses back |
| Timeline.RenderClockParses | src/App.tsx:46 | the rendering of fields whose seconds and milliseconds are in range, with minutes of any sign, reads back as their value |
| Timeline.FormatTimeMs | src/App.tsx:42-47 | for `t >= 0`, and for every whole number of minutes below zero, `formatTimeMs(t)` reads back as `t` |
| Timeline.WholeMinutesClock | src/App.tsx:43-45 | a whole number of minutes of either sign has zero seconds and milliseconds, and the fields add back up to it |
| Timeline.NegativeClockValue | src/App.tsx:43-45 | below zero the fields add back up to `t` exactly when `t` is a whole number of minutes; otherwise they stand for `t - 60000` (whole seconds) or `t - 61000` |
| Timeline.NegativeWholeMinute | src/App.tsx:42-47 | -60000 ms renders as "-1:00.000" and reads back as -60000 |
| Timeline.WholeMinuteFields | src/App.tsx:46 | -1 pads to "-1" at width 2, and 0 to "00" and "000" |
| Timeline.FormatNegativeTime | src/App.tsx:42-47 | -1 ms renders as "-1:-1.0-1" |
| Timeline.NegativeFields | src/App.tsx:46 | -2 pads to "-2" at width 2, and -1 pads to "0-1" at width 3: the fill goes before the sign |
| Timeline.NegativeTimeMisreads | src/App.tsx:43-46 | -61001 ms gives the fields -2, -2 and -1, which stand for -122001 ms, and renders as "-2:-2.0-1"; quotients truncated toward zero would give -1, -1 and -1, which add back up to -61001 |
| Timeline.ProjectStep | src/App.tsx:84-88 | one iteration adds the start point and the end point of the next command and advances the clock by its duration |
| Timeline.ProjectedPoints | src/App.tsx:80-89 | a complete projection holds, for command `k`, its start and end time at `2k` and `2k + 1`, both at its RPM |
| Timeline.ProjectTimeline | src/App.tsx:80-89 | two points per command: `y[2k] == y[2k+1] == rpm`; `x[2k]` is the plot origin plus the command's start time; `x[2k+1]` adds its duration; consecutive commands meet in a vertical step; the last point is the origin plus `totalTime` |
| Timeline.AddExtendsTimeline | src/App.tsx:20-40 | an added command starts at the old total time and leaves the total unchanged |
| Timeline.SumSameDurations | src/App.tsx:32-40 | sums depend on the durations only |
| Timeline.RpmEditKeepsTimeline | src/App.tsx:126-135 | an RPM edit keeps every start time and the total time |
| Timeline.SumReplace | src/App.tsx:140-148 | replacing one command changes every covering prefix sum by the difference of the durations |
| Timeline.DurationEditShiftsTimeline | src/App.tsx:139-148 | a duration edit keeps earlier start times and shifts later ones and the total by the change in duration |
| Timeline.RemoveShiftAt | src/App.tsx:153 | dropping one command takes its duration out of every prefix sum that reached past it |
| Timeline.RemoveShiftsTimeline | src/App.tsx:152-154 | a removal keeps earlier start times, moves every later command earlier by the removed duration, and shortens the total by it |
| Timeline.WarmupTimelineScenario | src/App.tsx:32-40 | a 5 s stop then 10 s at 12000 rpm start at 0 and 5000 and last 15000; after removing the first, the rest starts at 0 and lasts 10000 |
| GCode.EmitTitle | src/App.tsx:50 | before the loop the text is the title comment line |
| GCode.EmitStop | src/App.tsx:53-57 | for a stopped command the loop appends its `M05` line and its dwell line |
| GCode.EmitRun | src/App.tsx:59-61 | for a running command the loop appends its `S<rpm> M03` line and its dwell line |
| GCode.EmitEnd | src/App.tsx:63-64 | the closing `M05` and `M30` complete the program |
| GCode.GenerateGCode | src/App.tsx:49-66 | the loop with its `continue` branch writes exactly the program's lines, each terminated by "\n" |
| GCode.CommandLineAt | src/App.tsx:52-62 | command `k` contributes its spindle line at `2k` and its dwell line at `2k + 1` |
| GCode.CommandLinesLength | src/App.tsx:52-62 | each command contributes exactly two lines |
| GCode.CommandLinesAt | src/App.tsx:52-62 | every command contributes exactly its two lines, in list order |
| GCode.ProgramLineAt | src/App.tsx:50-64 | command `k`'s lines are lines `2k + 1` and `2k + 2` of the program |
| GCode.ProgramShape | src/App.tsx:49-66 | the program has `2n + 3` lines: `(title)`; `M05` when rpm is 0, otherwise `S<rpm> M03`; then `G04 P<durationMs>` per command; then `M05` and `M30` |
| GCode.FrameText | src/App.tsx:50-64 | the text is the title comment, the command lines, then `M05\nM30\n` |
| GCode.ProgramFrame | src/App.tsx:50-64 | every output starts with `(title)\n` and ends with `M05\nM30\n` |
| GCode.EmptyProgram | src/App.tsx:50-64 | an empty list yields exactly `(title)\nM05\nM30\n` |
| GCode.CommandLinesNoNewline | src/App.tsx:52-62 | no command line holds a line break |
| GCode.ProgramLineCount | src/App.tsx:49-66 | for a title without a line break, the text splits into exactly the program's `2n + 3` lines |
| GCode.SpindleLineDecodes | src/App.tsx:53-59 | partner of the lines written there: the spindle line reads back as the command's RPM, `M05` as 0 |
| GCode.DwellLineDecodes | src/App.tsx:56-61 | partner of the lines written there: the dwell line reads back as the command's duration |
| GCode.CommandLinesDecode | src/App.tsx:52-62 | partner of the loop there: the command lines read back as the list's (rpm, duration) pairs, in order |
| GCode.GCodeRoundTrip | src/App.tsx:49-66 | partner of `generateGCode`: for a title without a line break, the program reads back as the title and every (rpm, duration) pair, in order |
| GCode.DwellsMatchSum | src/App.tsx:40-61 | the dwells of the program add up to the sum of the durations |
| GCode.DwellsMatchTotalTime | src/App.tsx:40-61 | the dwells of the program add up to `totalTime` |
| GCode.Text5000 | src/App.tsx:56 | 5000 prints as "5000" |
| GCode.Text10000 | src/App.tsx:56 | 10000 prints as "10000" |
| GCode.Text12000 | src/App.tsx:59 | 12000 prints as "12000" |
| GCode.WarmupStopLines | src/App.tsx:53-56 | a 5 s stop prints `M05` and `G04 P5000` |
| GCode.WarmupRunSpindle | src/App.tsx:59 | 12000 rpm prints `S12000 M03` |
| GCode.WarmupRunDwell | src/App.tsx:61 | a 10 s dwell prints `G04 P10000` |
| GCode.WarmupCommandLines | src/App.tsx:52-62 | the two warm-up commands give four lines, in order |
| GCode.FourLineProgramText | src/App.tsx:50-64 | the text of a program with four command lines |
| GCode.WarmupProgramScenario | src/App.tsx:49-66 | "Warm-up" with a 5 s stop and then 10 s at 12000 rpm generates `(Warm-up)`, `M05`, `G04 P5000`, `S12000 M03`, `G04 P10000`, `M05`, `M30`, one per line |

## Left out

- The JSX tree, the MUI widgets, the dialog and the Plotly layout and data objects (src/App.tsx:68-78, 91-174): these are UI and a foreign charting library.
- `src/components/Visualizer.tsx` is not part of this model. It is SVG drawing driven by floating-point scale factors, and its prefix sum repeats `calcStartTimeMs`.
- `parseInt` of the form fields, the `NaN` it can produce, and the seconds-to-milliseconds `* 1000` in the duration field (src/App.tsx:131, 144): an edit arrives as an integer `Patch`.
- The two update handlers are one `UpdateById` with a `Patch` that names the field. Each handler is `UpdateById` with `SetRpm` or `SetDurationMs`.
- `new Date(...)` at src/App.tsx:84 and 87: plot times are integer milliseconds from the same origin, -3600000.
- React's state setters: each handler is one atomic update of the `WarmupEditor` fields. The queries (`calcStartTimeMs`, `totalTime`, `generateGCode`, the projection) take the current list as a parameter.
- The title and `setTitle` (src/App.tsx:14, 114): the title is a parameter of G-code generation. `maxRPM` (src/App.tsx:16, 116) is never read by the logic.
- JavaScript numbers are doubles. The model uses unbounded integers: no rounding of large values, no fractional durations, and no exponent notation in `toString` for magnitudes of 10^21 and more.
- GCode.GenerateGCode: the running time `currentTimeMs` (src/App.tsx:51, 55, 60) is kept in the method. It is never read, and no contract mentions it.
- GCode.GCodeRoundTrip: stated only for titles without a line break. A title with "\n" splits the comment over several lines, and the program no longer reads back.
- GCode.ProgramLineCount: stated only for titles without a line break, for the same reason.
- Timeline.FormatTimeMs: the read-back is stated for `t >= 0` and for whole negative minutes (-60000 prints "-1:00.000"). For every other negative `t` the fields do not add back up to `t`, so the text does not read back as it, as the next line shows.
- Negative times, which only negative durations can produce, render fields that are not a decomposition of the time unless it is a whole number of minutes (Timeline.NegativeClockValue). Both `Math.floor` calls (src/App.tsx:43, 44) round negative quotients down, while `%` (src/App.tsx:44, 45) truncates toward zero. So -61001 ms prints as "-2:-2.0-1", which stands for -122001 ms. Had the two divisions truncated toward zero like `%`, the fields would add back up to t: (-1, -1, -1) for -61001. Timeline.NegativeTimeMisreads proves both facts for -61001. The model follows the code.
