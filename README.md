# Shift clock ("pointeuse") — a verified model of the shift table

The bot lets members of a Discord server clock in and out of a shift with
two buttons, and answers a few text commands: `!total` (hours per user,
largest first), `!info` (who is on shift now) and `!clear` (reset everybody).
All of its logic works on one in-memory table, `data` in `index.js`. The
table maps a user id to a record with three parts:

- `sessions`: the completed shifts, as `{start, end}` pairs;
- `total`: the hours accumulated;
- `currentStart`: the clock-in time, present only while the user is on shift.

This project models that table and the operations the event handlers apply
to it. It then proves what those operations promise.

- `shifts.dfy` (module `Shifts`): one user's record and the per-user
  two-state machine. `StartShift` clocks a user in; a second clock-in
  overwrites the first, as in the source. `EndShift` clocks a user out and is
  rejected when the user is off shift. `SumHours` is the reference
  definition that `total` must agree with, and the lemmas show that clocking
  out keeps the two equal.
- `queries.dfy` (module `Queries`): the `!total` pipeline (filter the
  positive totals, then sort them by decreasing total) and the `!info`
  pipeline (filter the users on shift). Both are pure functions of the
  table's entry order and contents.
- `tracker.dfy` (module `Tracker`): class `ShiftTable`, which holds the
  table. Its `ids` field is the order in which the table's entries are
  enumerated: the order in which users were first seen, since Discord ids are
  not array-index keys. Its `data` field is the map of records. The methods
  update these fields in place: get-or-create, clock in, clock out, the
  `for…in` reset loop, and the two handlers that dispatch a button press or a
  decoded text command. `Valid()` states the table invariant: the entry order
  lists each key exactly once, and every `total` equals the hours of its
  sessions.

Timestamps are integer milliseconds since the epoch: subtracting two
JavaScript dates yields milliseconds. A duration is `(end - start) / 3600000`
hours, computed as an exact real. A present `currentStart` is always truthy in
the source (a `Date`, or its ISO string after a reload), so the source's
truthiness tests become `Some`/`None` tests.

The design notes for this system suggest two changes: rejecting a second
clock-in, and rejecting a clock-out that comes before the clock-in.
`index.js` does neither, and the model follows `index.js`. A second clock-in
overwrites the first. A negative duration is recorded as it is.
`EndKeepsWellOrdered` and `TotalNonNegative` state what holds when the host
clock never goes back.

## Model

| member | source | states |
|---|---|---|
| `Shifts.SumHoursAppend` | index.js:52-53 | appending one session to the history adds exactly that session's hours to the reference sum |
| `Shifts.TotalNonNegative` | index.js:51-53 | if every session ends no earlier than it starts, the summed hours are non-negative |
| `Shifts.StartShift` | index.js:38-39 | clocking in leaves the user on shift since `now`, whether or not they were on shift before; sessions and total are untouched, so a consistent record stays consistent |
| `Shifts.EndShift` | index.js:43-54 | clocking out is rejected exactly when there is no clock-in; otherwise it appends exactly one session `{start: currentStart, end: now}`, returns `(now - start) / 3600000` hours, adds them to the total, and leaves the user off shift |
| `Shifts.EndPreservesConsistent` | index.js:52-53 | a successful clock-out keeps `total` equal to the sum of the session hours |
| `Shifts.EndKeepsWellOrdered` | index.js:49-53 | a clock-out no earlier than the clock-in keeps every session well ordered and never decreases the total |
| `Shifts.StartThenEnd` | index.js:38-54 | a clock-in at t0 followed by a clock-out at t1 records the single session [t0, t1] and (t1 - t0)/3600000 hours; a second clock-out right after it is rejected |
| `Queries.PositiveTotals` | index.js:107-108 | keeps exactly the entries whose total is positive, each with its own total, without repeating a user |
| `Queries.Insert` | index.js:109 | inserting into a list sorted by decreasing total gives a sorted list holding the old lines plus the new one |
| `Queries.InsertIds` | index.js:109 | insertion adds exactly the new line's user, and keeps users distinct when that user is new |
| `Queries.SortByHours` | index.js:109 | the sorted list is in decreasing order of total and is a permutation of its input |
| `Queries.SortIds` | index.js:109 | sorting neither adds, loses nor duplicates a user |
| `Queries.Totals` | index.js:107-109 | the `!total` ranking lists exactly the users whose total is positive, each once and with their total, in non-increasing order of total; it is a permutation of the positive entries |
| `Queries.Active` | index.js:134-135 | the `!info` list holds exactly the entries that have a clock-in, each with its clock-in time, without repeating a user |
| `Queries.ActiveExact` | index.js:134-135 | over the whole table, the `!info` list names exactly the users on shift, each once |
| `Tracker.ShiftTable.constructor` | index.js:13 | the table starts empty and valid |
| `Tracker.ShiftTable.GetOrCreate` | index.js:34-36 | a new user gets the default record `{sessions: [], total: 0}` with no clock-in and goes last in entry order; a known user's record and the table are left unchanged |
| `Tracker.ShiftTable.ClockIn` | index.js:38-39 | only the clicking user's record changes, and it becomes `StartShift` of the old one; the invariant is kept |
| `Tracker.ShiftTable.ClockOut` | index.js:43-54 | rejected exactly when the user is off shift, and then nothing changes; otherwise only that user's record changes, to `EndShift` of the old one, and the hours are returned; every other user's record is unchanged and the total-equals-sessions invariant is kept |
| `Tracker.ShiftTable.Clear` | index.js:125-128 | the same users remain in the same order, every record becomes `{sessions: [], total: 0}`, and nobody is on shift |
| `Tracker.ShiftTable.HandleInteraction` | index.js:28-60 | a non-button interaction changes nothing; for a button, the presser's record is created if missing, then `start` clocks in, `end` clocks out or is rejected (keeping the newly created record), and any other button changes nothing more |
| `Tracker.ShiftTable.HandleMessage` | index.js:62-154 | bot messages and unprefixed messages change nothing; otherwise the author's record is created if missing; `clear` resets every record (the author's included); `total` and `info` report on the table as it is after get-or-create; `help`, `service` and unknown commands change nothing more |

## Left out

- Persistence: reading `data.json` at start-up (index.js:16-18) and `saveData` (index.js:20-22, 59, 129, 153) are file I/O and JSON serialisation. The table starts empty and lives in memory only. A rejected clock-out returns before `saveData`, which matters only to the file.
- Discord plumbing: the client and its intents, login, the ready event, the embeds, the buttons and every `reply` are UI and network code from a library this model cannot see. The handlers return a reply value instead.
- User lookups: `client.users.fetch` (index.js:111-115, 136-143) are asynchronous network calls. Dropping the users that cannot be fetched affects only the displayed text.
- Message decoding: the prefix test, the split on spaces and the lower-casing (index.js:63-65) are replaced by the inputs `isBot`, `hasPrefix` and an already decoded `command`. Likewise `interaction.isButton()` (index.js:29) becomes the input `isButton`.
- Display formatting: `toLocaleTimeString` and `toFixed(2)` are not modelled.
- Floating point: totals and durations are exact reals, not IEEE doubles, so rounding in `total +=` is not modelled.
- Date re-parsing: `new Date(start)` of a stored value (index.js:50) is treated as the identity on integer milliseconds.
- Queries.Totals: the order among users with equal totals is not stated. JavaScript's sort is stable, and so is the insertion sort here, but no lemma states stability.
- Queries.Active: the order of the `!info` list (table order in the source) is not stated. Only its exact contents are.
