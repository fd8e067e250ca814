# Cronos Fútbol: match clock and player-state engine

Cronos Fútbol is a browser app a coach uses on the touchline. It runs the
match clock and keeps one team's squad: who is on the field and who is on
the bench, how many seconds each player has played, where each field chip
sits on the pitch, and a history of "Entra a las MM:SS" / "Sale a las
MM:SS" entries for every substitution. This project models the engine
behind it, all of which lives in `app.js`:

- the session state: `players`, `masterTime`, `isRunning`, `currentMode`
  and the shirt colour (class `Match.Session`);
- squad generation for Fútbol 7 (14 players, 7 starters) and Fútbol 11
  (18 players, 11 starters);
- play/pause, the one-second tick, reset and the mode switch;
- `formatTime` (seconds to `MM:SS`);
- automatic placement of unplaced field players from the `FORMATIONS`
  table or the fallback grid;
- the substitution engine: drop on the pitch, drop on the bench, the
  smart swap when a chip is dropped on another chip, and the history
  logger;
- the two operator edits (name and dorsal) with their guards.

The model is organised in these modules:

- `Wrappers` holds `Option`.
- `JsText` holds the JavaScript string behaviour the engine relies on:
  - `trim`, with the ECMAScript whitespace set;
  - the `Number(...)` literal grammar behind `isNaN`;
  - decimal rendering of integers;
  - `includes`.
- `TimeFormat` holds `formatTime` and its inverse.
- `Squad` holds player records and history entries as values. It also
  holds the pure part of every change made to one or two records.
- `Formation` holds `FORMATIONS` and the coordinate half of
  `placeOnField`.
- `Match` holds the `Session` class. Its methods update the state in
  place and state each effect through the functions of `Squad` and
  `Formation`.

History entries are the tagged values `Entra(t)` / `Sale(t)`, with `t`
the match second. `MovementText` renders the exact text the app stores,
and `Squad.EntraTestRecoversTag` proves that the app's
`.includes('Entra')` test on that text gives back the tag.
`TimeFormat.FormatTimeInjective` proves that keeping the second instead
of its text loses nothing.

The session invariant `Session.Valid` requires two things:

- ids are the positions 1..N;
- every record is well kept at the current match second. A record is
  well kept when:
  - it has played no longer than the match has run;
  - a bench player sits at the (0, 0) "not placed" sentinel;
  - its history is in clock order and stamped no later than now;
  - its name is non-blank and trimmed.

Every state-changing method preserves the invariant.

What the app does that a coach might not expect (the model follows the
code in each case):

- A starter with an empty history that is dropped on the bench logs no
  Sale (`Squad.StarterBenchedUnlogged`).
- A starter that is only repositioned on the pitch logs an Entra
  (`Squad.StarterRepositionLogsEntra`).
- A running swap of two field players appends an Entra to both
  histories. A player whose history already ended in Entra then has two
  Entra entries in a row (`Squad.FieldSwapRelogsEntra`, stated for the
  dragged player); a starter with an empty history gets its first Entra.
- A paused swap logs nothing. A field player whose history ends in Entra
  can therefore reach the bench with that Entra last, and a later plain
  drop on the bench logs a Sale for a player who was already on the bench
  (`Squad.PausedSwapThenBenchDropLogsSale`). So a bench-to-bench drop logs
  nothing only when the history does not end in Entra.
- Past the end of the `FORMATIONS` table, an unplaced field player goes to
  the fallback grid `(20 + (i % 3) * 30, 20 + ⌊i / 3⌋ * 20)` for its
  position `i` among the field players (app.js:321-323), not to a fixed
  point (`Formation.SlotCell`).
- `isNaN` lets blank answers through, because `Number("")` is 0
  (`JsText.IsNumericText`).
- The accepted dorsal is stored untrimmed, exactly as typed.

## Model

| member | source | states |
|---|---|---|
| JsText.IsJsSpace | app.js:281 | the set `trim()` strips contains the ASCII blanks (space, tab, line feed, carriage return) and no character that can be part of a numeric literal (hex digits, so every decimal digit; sign; point; exponent mark; radix prefix letters; the letters of `Infinity`) |
| JsText.Trim | app.js:281-282 | `trim()` gives the empty text exactly when the answer is all JavaScript whitespace; otherwise the result starts and ends with a non-whitespace character |
| JsText.TrimIsMiddle | app.js:281-282 | the trimmed name is some slice of the answer whose cut-off prefix and suffix are whitespace only |
| JsText.TrimIdempotent | app.js:282 | trimming a stored name again changes nothing |
| JsText.DigitsAreNumeric | app.js:290 | any non-empty run of decimal digits passes the `isNaN` guard |
| JsText.IsNumericText | app.js:290 | the text `isNaN` accepts: an empty or whitespace-only answer is numeric (it converts to 0) |
| JsText.BadLeadIsNaN | app.js:290 | an answer whose first non-blank character cannot start a numeric literal is rejected |
| JsText.Decimal | app.js:99-102 | the decimal text of a number is non-empty and all digits, has no leading zero, and is one digit exactly below 10 |
| JsText.DecimalRoundTrip | app.js:147 | reading the decimal text back gives the number |
| JsText.DecimalInjective | app.js:147 | different numbers have different decimal texts |
| JsText.LeadingZeroValue | app.js:147 | a leading zero added by padding does not change a digit string's value |
| JsText.Includes | app.js:375 | `s.includes(pat)` holds exactly when `pat` occurs at some position of `s` |
| JsText.MissingLeadNotIncluded | app.js:375 | a text without the pattern's first character does not include the pattern |
| TimeFormat.PadStart2 | app.js:147 | `padStart(2, '0')` keeps the text as its suffix, pads with zeros only, and gives length max(2, length) |
| TimeFormat.Field2 | app.js:147 | a padded field is at least two digits, exactly two below 100, and reads back as the number |
| TimeFormat.DecimalLength | app.js:147 | a decimal text is longer than two digits exactly from 100 on |
| TimeFormat.PadKeepsValue | app.js:147 | padding a decimal text keeps its value |
| TimeFormat.MinuteSplit | app.js:145-146 | `Math.floor(sec / 60)` and `sec % 60` split `sec` with seconds below 60, and minutes below 100 exactly when `sec < 6000` |
| TimeFormat.ClockText | app.js:147 | joining two fields with a colon yields digits, a colon three from the end, two digits; cutting there gives the fields back |
| TimeFormat.FormatTime | app.js:144-148 | `formatTime(sec)` has the `MM:SS` shape, and is exactly five characters long when `sec < 6000` |
| TimeFormat.FormatTimeRoundTrip | app.js:144-148 | the seconds field reads back as `sec % 60` (below 60), the minutes field as `sec / 60`, and `MM*60 + SS == sec` |
| TimeFormat.FormatTimeInjective | app.js:144-148 | two different second counts never format to the same text |
| Squad.Recruit | app.js:100-109 | the record pushed for counter i has id i, a dorsal that reads back as i, the team colour, no time, no history, the (0, 0) position, and is on the field exactly when i is within the starters |
| Squad.InitialSquad | app.js:91-111 | the squad has 14 (F7) or 18 (F11) players; player k has id and dorsal k+1, name "Jugador k+1", the team colour, time 0, empty history and position (0, 0); it is on the field exactly when k+1 is within the starter count |
| Squad.SquadPrefixOnField | app.js:99-110 | the first j generated players hold min(j, starters) field players |
| Squad.StartersOnField | app.js:95-96 | a fresh squad has exactly 7 (F7) or 11 (F11) field players and 7 on the bench |
| Squad.FieldCountUpdate | app.js:411-423 | replacing one record changes the number of field players only by that record's status change |
| Squad.FindPlayer | app.js:351 | `players.find` returns the first index holding the id, or none exactly when no record has it |
| Squad.MovementText | app.js:433 | the stored text starts with "Entra" for an Entra entry and "Sale" for a Sale entry, and ends with `formatTime` of the entry's second |
| Squad.EntraTextIncludes | app.js:375 | the stored text of an Entra entry includes "Entra" |
| Squad.SaleTextExcludes | app.js:402 | the stored text of a Sale entry does not include "Entra" |
| Squad.EntraTestRecoversTag | app.js:431-434 | `.includes('Entra')` on a text built by `logMovement` holds exactly when the entry is an Entra |
| Squad.LastSaysEntra | app.js:375 | the history guard on the stored text holds exactly when there is a last entry and it is an Entra |
| Squad.Stamp | app.js:433 | the entry is stamped with the current clock and is an Entra exactly when the player is on the field |
| Squad.Logged | app.js:431-434 | `logMovement` appends exactly one entry, stamped with the clock, tagged Entra exactly when the player is on the field; nothing else changes |
| Squad.FieldDrop | app.js:371-378 | a plain drop on the pitch sets status field and the drop point; the history then ends in Entra, gains at most one Entra, and gains it exactly when it did not already end in one; nothing else changes |
| Squad.BenchDrop | app.js:399-405 | a plain drop on the bench sets status bench and (0, 0); a Sale is appended exactly when the history ended in Entra; nothing else changes |
| Squad.DropsKeepAlternation | app.js:375-377 | plain drops keep a history whose consecutive entries alternate between Entra and Sale |
| Squad.StarterRepositionLogsEntra | app.js:375-377 | as written, a starter with no history moved on the pitch gets an Entra |
| Squad.StarterBenchedUnlogged | app.js:402-404 | as written, a starter with no history dropped on the bench logs nothing |
| Squad.SwapSeats | app.js:411-423 | the two players exchange status, x and y; every other field of theirs and every other player stay unchanged |
| Squad.SwapSymmetric | app.js:411-423 | swapping a with b is the same as swapping b with a |
| Squad.SwapInvolutive | app.js:411-423 | swapping the same two players twice restores the squad |
| Squad.SwapKeepsFieldCount | app.js:411-423 | a swap never changes the number of field players |
| Squad.Swapped | app.js:409-429 | the full swap: the exchange, plus exactly one entry for each of the two players tagged by its new status when running, none when paused; all other players untouched |
| Squad.FieldSwapRelogsEntra | app.js:425-428 | as written, a running swap of two field players appends an Entra to the dragged player, whose history already ended in Entra, so its last two entries are both Entra |
| Squad.PausedSwapThenBenchDropLogsSale | app.js:399-428 | as written, after a paused swap sends a field player whose history ends in Entra to the bench, a plain drop on the bench appends a Sale; the player who went on has no new entry |
| Squad.Ticked | app.js:132-137 | one tick adds exactly one second to a field player and nothing to a bench player; nothing else changes |
| Squad.TickPlayers | app.js:132-137 | the tick keeps the squad's length and order; each field player gains exactly one second, each bench player none, and nothing else changes |
| Squad.TicksAccrue | app.js:128-138 | after n ticks every field player has n more seconds, every bench player none, and nothing else changes |
| Squad.NinetySecondsOfF7 | app.js:128-138 | ninety ticks after an F7 spawn, the seven starters show 90 seconds and the seven substitutes 0 |
| Squad.RecruitWellKept | app.js:99-110 | every generated record satisfies the per-player invariant at any clock value |
| Squad.LoggedWellKept | app.js:431-434 | logging keeps the per-player invariant (the new stamp is the current second) |
| Squad.DropsWellKept | app.js:372-404 | both plain drops keep the per-player invariant |
| Squad.SwappedWellKept | app.js:409-429 | a swap keeps the invariant of every player |
| Squad.TickedWellKept | app.js:128-138 | a tick keeps the per-player invariant for the next second |
| Squad.NameAccepted | app.js:281 | the name guard passes exactly when the answer is not a cancel and not all whitespace |
| Squad.NumberAccepted | app.js:290 | the dorsal guard rejects a cancel and passes a blank answer |
| Squad.NameEditOutcome | app.js:280-284 | an accepted name is stored non-blank and trimmed; an answer is rejected exactly when it is a cancel or all whitespace |
| Squad.NumberEditAccepts | app.js:290 | every generated dorsal and every blank answer passes the dorsal guard |
| Formation.Slots | app.js:296-309 | `FORMATIONS` has one slot per starter (7 or 11), every slot lies strictly inside the pitch, and the goalkeeper's slot is the deepest |
| Formation.JsRem | app.js:322 | JavaScript `%` for a positive divisor: the exact remainder for a non-negative dividend, never positive for a negative one, and always smaller in size than the divisor |
| Formation.SlotCell | app.js:311-325 | a field position inside the table gets its `FORMATIONS` slot; a position past the table gets the fallback grid cell `(20 + (i % 3) * 30, 20 + ⌊i / 3⌋ * 20)`; the point is never the (0, 0) sentinel, and starter slots lie on the pitch |
| Formation.SlotsDistinct | app.js:296-309 | no two slots of a formation coincide |
| Formation.SlotsOffFallbackRows | app.js:296-309 | no formation slot lies on a fallback-grid row used from position 6 on |
| Formation.SlotCellInjective | app.js:316-323 | different field positions get different points |
| Formation.FieldRank | app.js:313-314 | `filter(...).indexOf(player)` is -1 for a bench player and a position below the field count for a field player |
| Formation.FieldRanksDistinct | app.js:313-314 | two field players have different positions, in squad order |
| Formation.Placed | app.js:311-325 | `placeOnField` changes only x and y, never leaves the player at the sentinel, leaves an already placed player alone, and puts an unplaced player on the point of its position among the field players |
| Formation.PlacedByStatuses | app.js:313-314 | where an unplaced player lands depends on the other players only through the statuses of those before it |
| Formation.ArrangedAt | app.js:165-170 | the placement pass changes at most x and y of a record; a field player goes through `placeOnField` and ends off the sentinel; a bench player is untouched |
| Formation.StartersTakeFormation | app.js:313-319 | after the first placement pass over a fresh squad, starter k stands on slot k of the `FORMATIONS` table for the mode |
| Formation.PlacedApart | app.js:311-325 | two unplaced field players are auto-placed on different points |
| Match.Session.Valid | app.js:2-6 | the session invariant; it makes ids unique, so `players.find` by id picks one record, and no player has played longer than `masterTime` |
| Match.Session.constructor | app.js:2-11 | the initial state: no players, clock 0, paused, Fútbol 7, the default primary colour |
| Match.Session.SpawnInitialPlayers | app.js:91-111 | the loop rebuilds the squad as `InitialSquad` for the current mode and colour; the clock and flags are untouched |
| Match.Session.ConfirmSetup | app.js:55-68 | the chosen colour and mode are stored and the squad is spawned for them |
| Match.Session.ToggleGame | app.js:113-126 | the running flag flips; nothing else changes |
| Match.Session.Tick | app.js:128-138 | the clock advances by one and the players become `TickPlayers` of the old ones (field players plus one second) |
| Match.Session.ResetGame | app.js:436-445 | clock 0, paused, and a fresh squad for the current mode |
| Match.Session.ChangeMode | app.js:73-77 | the new mode is stored and the match resets |
| Match.Session.Lookup | app.js:351 | in a valid session the id is found exactly when it is in 1..N, at index id-1 |
| Match.Session.EditPlayerName | app.js:278-285 | an unknown id, a cancel or a blank answer changes nothing; otherwise only that player's name changes, to the trimmed answer |
| Match.Session.EditPlayerNumber | app.js:287-294 | an unknown id, a cancel or an answer rejected by `isNaN` changes nothing; otherwise only that player's dorsal changes, to the answer as typed |
| Match.Session.PlaceOnField | app.js:311-325 | the field player at k becomes `Placed`; nobody else changes |
| Match.Session.ArrangeField | app.js:165-170 | the loop applies `placeOnField` to every field player and leaves bench players alone |
| Match.Session.ArrangeStep | app.js:165-170 | one round of that loop extends the arranged prefix by one record |
| Match.Session.LogMovement | app.js:431-434 | one entry for the player at k, as `Logged` |
| Match.Session.HandleSmartSwap | app.js:409-429 | the players become `Swapped` of the old ones, with the current flag and clock |
| Match.Session.SwapWithChip | app.js:367-370 | a drop on another chip swaps with its player, or changes nothing when that id is unknown |
| Match.Session.EndsInEntraText | app.js:375 | the text guard on the stored history holds exactly when the last entry is an Entra |
| Match.Session.Seat | app.js:372-374 | the player at k gets the given status and position; nothing else changes |
| Match.Session.MoveToField | app.js:371-378 | the player at k becomes `FieldDrop` of itself |
| Match.Session.MoveToBench | app.js:399-405 | the player at k becomes `BenchDrop` of itself |
| Match.Session.DropToField | app.js:348-380 | an unknown id changes nothing; a drop on another chip is a swap (a no-op for an unknown target); any other drop is `FieldDrop` |
| Match.Session.DropToBench | app.js:382-407 | an unknown id changes nothing; a drop on another chip is a swap (a no-op for an unknown target); any other drop is `BenchDrop` |

## Left out

- sw.js, the service worker, is not part of this model. It only caches files for offline use.
- DOM rendering is not modelled: the chip and bench HTML, the chip styling half of `placeOnField`, `updatePlayerUI`, `updateMasterUI` and the setup modal. Of `renderPlayers`, only the placement pass is modelled (`Match.Session.ArrangeField`). The app runs that pass at the end of `confirmSetup` (app.js:66) and `resetGame` (app.js:444), after an accepted edit (app.js:283, app.js:292), and after a drop with a known player id (app.js:379, app.js:406). It does not run after a cancelled or rejected edit, after a drop whose id is unknown (app.js:352, app.js:386), or after a swap that throws. In the model these handlers stop before it, and the caller runs `ArrangeField` afterwards.
- Gesture capture is not modelled: drag events, the `handleTouch*` handlers and the hover classes. The hit-test `elementFromPoint(...).closest('.player-chip')` becomes the optional `target` id of the drop methods.
- The pixel-to-percent computation of the drop point uses floating-point division on the pitch rectangle. The drop methods take the resulting percentages as given `real` values.
- Timers and prompts are host calls. `Match.Session.Tick` requires `isRunning`, because the interval only exists between a `toggleGame` that starts play and the next pause or reset. The `prompt` answer is an `Option<string>` parameter, with `None` for Cancel.
- `Match.Session.Tick` does not model a tick that fires after `isRunning` turned false; the cleared interval rules it out.
- The team name (display only) and `exportData`'s CSV text and download are not modelled.
- Player records are values in a sequence, not shared objects. The handlers reach a record by its index, which the invariant ties to its id. Aliasing between the DOM and the array plays no part in the engine.
- The dorsal is modelled as text throughout: the decimal text of the number at spawn, and the raw answer after an edit. JavaScript keeps a number at spawn and a string after an edit. The two render alike.
- Where the app throws or returns early, the model leaves the state unchanged:
  - An edit with an unknown player id throws in the app: `player` is `undefined`, and reading its dorsal or name for the prompt fails (app.js:280, app.js:289). The model leaves the state unchanged, since the app writes nothing before the exception.
  - A swap with an unknown target id throws at the first read of `target.status` (app.js:416), before any write, and is modelled the same way.
  - A drop with an unknown player id does not throw: `dropToField` and `dropToBench` return at once (app.js:352, app.js:386). The model leaves the state unchanged there too.
- `masterTime++` and `p.time++` (app.js:129, app.js:134) work on JavaScript numbers, which are doubles: they stop growing at 2^53, and `toString` in `formatTime` (app.js:147) switches to exponent notation from 10^21. The model's counters are unbounded naturals and `FormatTime` always prints plain digits.
- Formation.JsRem: for a negative dividend the contract gives only the sign and the bound of the remainder, not its exact value. Placement only ever uses the position of a field player, which is never negative.
- `Squad.FieldDrop` and `Squad.BenchDrop` test the last entry's tag. The stored-text test `.includes('Entra')` is `Squad.LastSaysEntra` and `Match.Session.EndsInEntraText`, which the methods run; `Squad.EntraTestRecoversTag` proves the two tests agree.
