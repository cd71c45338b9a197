# Cube timer: a Dafny model

This project models the logic of a browser speed-cubing timer (`script.js`).
The timer measures a solve, shows its time, and draws a new scramble. It also
keeps a session history and shows it ranked from fastest to slowest. The model
has five modules:

- `TimeFormat` (`format.dfy`): `formatTime`, which turns milliseconds into
  `SS.CC`, `MM:SS.CC` or `HH:MM:SS.CC`. It uses JavaScript's truncating `%`,
  `Math.floor`, and padding by concatenation with `"0"`.
- `Scramble` (`scramble.dfy`): `generateScramble`. It draws twenty moves from
  the eighteen-move table, never two in a row on the same face, and joins them
  with spaces.
- `History` (`history.dfy`): solve records and the ranked view that
  `updateTimesList` builds from a sorted copy of `timesList`.
- `Session` (`session.dfy`): the module-level variables as one value. Each
  handler is a function from the old state to the new one. Sequences of events
  are runs of these functions.
- `Timer` (`timer.dfy`): class `CubeTimer`. Its fields are the script's
  variables and its methods update them in place. Each handler method is
  specified by the `Session` function of the same name, and
  `GenerateScramble` by `Session.NewScramble`.

`Wrappers` (`wrappers.dfy`) holds the `Option` type.

The clock (`new Date().getTime()`) is an `int` argument. Each firing of the
10 ms interval is one `Tick(now)` call, and the interval itself reduces to the
`running` flag. `Math.random` is a nondeterministic choice. Touch support
(`isMobile`) is a constructor argument.

Two behaviours of `script.js` are easy to misread, and the model keeps both:

- `formatTime` always pads the seconds, so 0 ms shows as `00.00` and
  60000 ms as `01:00.00`.
- `stopTimer` saves the `difference` computed at the last tick, not a fresh
  clock reading taken at the moment of the stop.

## Model

| member | source | states |
|---|---|---|
| `TimeFormat.JsRem` | script.js:153-156 | `%` as the script uses it: it truncates, so the result has the dividend's sign and lies strictly within `b` of zero; for a non-negative dividend it is the ordinary remainder in `[0, b)` |
| `TimeFormat.JsRemLeavesMultiple` | script.js:153-156 | the dividend minus the truncating remainder is a multiple of the divisor, so with the sign and range above the remainder is determined |
| `TimeFormat.NatToString` | script.js:158-161 | number-to-text conversion of a natural: at least one character, all decimal digits, a single digit exactly below ten, and no leading zero from ten on |
| `TimeFormat.IntToString` | script.js:158-161 | number-to-text conversion of any integer: a leading minus exactly when negative and decimal digits after it, one digit for a magnitude below ten and no leading zero on a magnitude of ten or more |
| `TimeFormat.NatToStringValue` | script.js:158-161 | the digits of a natural's text read back, left to right, as the number |
| `TimeFormat.IntToStringValue` | script.js:158-161 | an integer's text reads back as the integer: the digits are the number when it is non-negative, and the digits after the minus are its magnitude when negative |
| `TimeFormat.Pad` | script.js:158-161 | a padded field has at least two characters; for 0..99 it is exactly two digits whose value is the number; it equals `"00"` exactly when the number is 0 (the test formatTime uses to drop a field) |
| `TimeFormat.FieldsOf` | script.js:153-156 | for a non-negative time, hours are in 0..23, minutes and seconds in 0..59, centiseconds in 0..99 |
| `TimeFormat.FieldsAreTruncatedUnits` | script.js:153-156 | each field is a truncated quotient: hours are whole hours mod 24, minutes and seconds whole units mod 60, centiseconds whole hundredths mod 100 (999 ms gives 99, not rounded) |
| `TimeFormat.FieldsRecompose` | script.js:153-156 | the four fields add back up to the whole centiseconds within the day |
| `TimeFormat.FormatTime` | script.js:152-170 | for a non-negative time the text has 5, 8 or 11 characters with the point before the last two; `FormatShape` and `FormatThenRead` state the full contract |
| `TimeFormat.FormatShape` | script.js:163-169 | hours and minutes zero gives `SS.CC`; only hours zero gives `MM:SS.CC`; otherwise `HH:MM:SS.CC`; each two-character group holds its field's value |
| `TimeFormat.FormatThenRead` | script.js:152-170 | reading a display text back gives the time in whole centiseconds modulo one day, so formatTime loses only the day count and the last millisecond digit |
| `TimeFormat.FormatExamples` | script.js:152-170 | 0 shows `00.00`, 999 shows `00.99`, 1050 shows `01.05` |
| `TimeFormat.FormatUnitExamples` | script.js:152-170 | one minute shows `01:00.00`, one hour `01:00:00.00`, one whole day `00.00` (hours wrap) |
| `Scramble.MovesShape` | script.js:116 | the table has 18 moves of one or two characters, none containing a space |
| `Scramble.MovesAreFaceTurns` | script.js:116 | move k turns face `"UDLRFB"[k / 3]` with suffix `""`, `'` or `2` by `k % 3` |
| `Scramble.Generate` | script.js:115-131 | the result has 20 moves, all from the table, and neighbouring moves turn different faces |
| `Scramble.Extend` | script.js:124-130 | appending a table move on a face different from the last move's keeps the adjacency rule |
| `Scramble.Join` | script.js:133 | the joined text starts with the first move |
| `Scramble.JoinSeparators` | script.js:133 | joining space-free moves puts exactly one space between neighbours: the text holds one space fewer than there are moves |
| `Scramble.SplitJoin` | script.js:133 | splitting a space-joined sequence of space-free moves at its spaces gives back the sequence |
| `Scramble.ScrambleTextDeterminesMoves` | script.js:133 | `currentScramble` of a generated scramble splits into exactly its twenty moves |
| `History.SortByTime` | script.js:142 | the sorted copy has as many records as `timesList` |
| `History.InsertSorted` | script.js:142 | inserting into a sorted list keeps it sorted |
| `History.InsertPermutes` | script.js:142 | inserting adds exactly the one record and loses none |
| `History.SortSorted` | script.js:142 | the sorted copy is ascending by time and a permutation of `timesList` |
| `History.SortStable` | script.js:142 | records with equal times keep their insertion order in the sorted copy |
| `History.StableSortUnique` | script.js:142 | two ascending lists that have, for every time, the same records with that time in the same order are equal |
| `History.StableSortIsSortByTime` | script.js:142 | every stable ascending sort of `timesList` equals the sorted copy |
| `History.Ranked` | script.js:142-147 | the view has one entry per stored record, ranks `index + 1`, and is ascending by time and a permutation of `timesList` |
| `History.RankedStable` | script.js:142-147 | in the view, ties stay in recording order |
| `History.SortExample` | script.js:142 | times 1200, 900, 900, 1500 sort as 900, 900, 1200, 1500, the two 900s in insertion order |
| `History.RankedExample` | script.js:142-147 | the same times rank 1 to 4 in that order |
| `Session.Initial` | script.js:2-10 | at load the timer is not running, nothing is saved, the history is empty and Space is not held |
| `Session.Start` | script.js:44-53 | afterwards the timer is running; a start while running changes nothing; otherwise the origin becomes `now - savedTime` and no other variable but `running` changes |
| `Session.Tick` | script.js:97-99 | a tick sets `difference` to `now - startTime` for the unchanged origin `startTime`, and changes no other variable |
| `Session.Stop` | script.js:55-77 | afterwards the timer is stopped; a stop while not running changes nothing; otherwise the saved time is the last tick's `difference`, the history grows by at most one record at its end, and no other variable but `running` changes |
| `Session.Reset` | script.js:79-89 | stopped, saved time and `difference` zero, the new scramble current, and the history, the origin `startTime` and the Space flag kept |
| `Session.ResetAll` | script.js:91-95 | the same state as Reset gives, except that the history is empty |
| `Session.Trigger` | script.js:181-191 | a trigger stops when running; when a time is saved it resets and does not start; otherwise it starts; the Space flag is untouched |
| `Session.KeyDown` | script.js:173-195 | a non-Space key or a Space keydown while Space is held changes nothing; a Space keydown while not held sets the flag and then triggers |
| `Session.KeyUp` | script.js:215-219 | a Space keyup clears the flag and changes nothing else; other keys change nothing |
| `Session.Tap` | script.js:198-212 | a tap triggers on a touch device and changes nothing elsewhere |
| `Session.NewScramble` | script.js:133 | only `currentScramble` changes |
| `Session.Step` | script.js:38-41 | each event reaches the handler its listener is registered for (by definition); a tick while stopped changes nothing; any event but "reset all" keeps the history as a prefix and adds at most one record; only a Space keyup clears the Space flag, and a Space keydown while it is set changes nothing |
| `Session.Run` | script.js:55-95 | over events without "reset all", the old history stays a prefix and grows by at most one record per event |
| `Session.StopIdempotent` | script.js:55-77 | a second stop leaves the saved time and the history as the first stop left them |
| `Session.StopRecordsPositiveTime` | script.js:58-68 | a stop that acts appends exactly one record, `{time: difference, scramble: currentScramble}`, exactly when that time is positive |
| `Session.StartThenTick` | script.js:44-53 | after a start from a stopped state, a tick shows the saved time plus the time since the start |
| `Session.TwoStepReset` | script.js:181-191 | after a solve, the first trigger resets without starting, keeping the history; the second starts from zero at its own time |
| `Session.DropSpaceDowns` | script.js:177-179 | every event that is not a Space keydown survives, and no other event does |
| `Session.DropSpaceDownsAppend` | script.js:177-179 | the filter distributes over concatenation, so the survivors keep their order and multiplicity |
| `Session.DropSpaceDownsSingle` | script.js:177-179 | a single event is kept exactly when it is not a Space keydown |
| `Session.HeldSpaceIgnored` | script.js:177-179 | while Space is held, over any events without a Space keyup, the run equals the run with every Space keydown removed, and the flag stays set |
| `Session.HeldPressTriggersOnce` | script.js:173-219 | a Space press triggers exactly once, at its first keydown: up to the Space keyup, the run is that one trigger followed by the other events, with all repeated Space keydowns ignored |
| `Session.HeldSpaceTriggersOnce` | script.js:173-195 | a press with only auto-repeat keydowns is exactly one trigger, at the first keydown |
| `Session.RunKeepsRecordsPositive` | script.js:62-68 | no sequence of events ever stores a record whose time is not positive |
| `Session.SolveScenario` | script.js:44-77 | from load: trigger, a tick 1050 ms later, trigger; this records `{1050, scramble}`, which displays as `01.05` |
| `Timer.CubeTimer.constructor` | script.js:28-41 | the variables start as `Session.Initial` with a generated scramble |
| `Timer.CubeTimer.GenerateScramble` | script.js:115-135 | `currentScramble` becomes the join of twenty valid moves; nothing else changes |
| `Timer.CubeTimer.Start` | script.js:44-53 | updates the fields as `Session.Start` |
| `Timer.CubeTimer.Tick` | script.js:97-99 | updates the fields as `Session.Tick` |
| `Timer.CubeTimer.Stop` | script.js:55-77 | updates the fields as `Session.Stop`, appending to `timesList` in place |
| `Timer.CubeTimer.Reset` | script.js:79-89 | updates the fields as `Session.Reset` with the scramble it generates |
| `Timer.CubeTimer.ResetAll` | script.js:91-95 | updates the fields as `Session.ResetAll` |
| `Timer.CubeTimer.Trigger` | script.js:199-210 | updates the fields as `Session.Trigger` |
| `Timer.CubeTimer.KeyDown` | script.js:173-195 | updates the fields as `Session.KeyDown` |
| `Timer.CubeTimer.KeyUp` | script.js:215-219 | updates the fields as `Session.KeyUp` |
| `Timer.CubeTimer.Tap` | script.js:198-212 | updates the fields as `Session.Tap` |

Every `CubeTimer` handler method also keeps `Valid()`. It says that `currentScramble`
is the join of a valid twenty-move scramble and that every stored time is
positive.

## Left out

- DOM writes and styling are presentation only and are not modelled: the timer and scramble text, the list items with their `rank. time` text, background colours, the 300 ms colour reset and the mobile instructions.
- `setInterval`/`clearInterval` are not modelled. The interval exists exactly while `running`, so a tick is a `Tick(now)` call that requires `running`. In an event run, a tick while stopped is no event.
- `new Date().getTime()` is not modelled. The clock reading is an argument.
- `Scramble.Generate`: `Math.random` is a nondeterministic choice, so the model makes no claim about a uniform distribution. The redraw loop is modelled by the condition that holds when it exits, and its termination is not modelled.
- The `checkMobile` probe is not modelled. `isMobile` is a constructor argument.
- The `addEventListener` calls themselves, `preventDefault` for Space and the double-tap `dblclick` handler are browser plumbing and are not modelled. Key events carry `e.code` as a string.
- The display-string part of `updateTimer` only feeds the DOM and is not modelled.
- `updatedTime` is a module-level variable (script.js:3) that only `updateTimer` writes; it holds the clock reading just before `difference` is computed. The clock reading is the `now` argument of `Tick`, so `updatedTime` has no counterpart.
- `startTime` and `difference` start as `undefined` in the script. In the model they start at 0. So a stop that comes before the first tick after the first start (at any time after load) saves 0 in the model, where the script saves `undefined`. In the script, `undefined > 0` is false, so the next trigger starts with `startTime = now - undefined`, which is `NaN` (script.js:46, 184-189). From then on every tick and stop gives `NaN` and nothing is recorded (script.js:58, 62), until "reset all" sets `savedTime` back to 0 (script.js:81-82). In the model the next trigger starts normally.
- JavaScript numbers are doubles. The model uses unbounded integers, which matches integer millisecond clock readings below 2^53.
