# RSVP and points bot — decision logic in Dafny

This project models the core of a Telegram community bot, `src/index.js`. The bot posts an RSVP card for each event in a group, with YES and NO buttons. The card stops taking votes from the event's calendar day on. After the event an admin checks off who came. Closing the check-in writes a points-ledger entry for every YES voter: the event category's award if they came, −5 if they did not. Monthly and yearly leaderboards are sums over that ledger.

Telegram and Firestore are removed. Each Firestore transaction becomes a pure function from the stored state to a result and a new state. Each message handler becomes a function from the button data or text it receives to the screen it would draw. "Today" is an explicit parameter.

The modules follow the parts of the program:

- `Base` — `Option`.
- `Strings` — the JavaScript string built-ins the code relies on: `trim`, `toLowerCase`, `padStart`, `split`, `join`, `String(n)`, and string comparison.
- `EventDate` — reading the first `D.M.YYYY` date in an event label, the lock rule, and the day difference used by the check-in picker.
- `Rsvp` — the poll record and the vote transaction.
- `Card` — the card text, its ten-cell bars and its keyboards.
- `Callbacks` — the button-data formats and the callback handler's patterns, tried in the handler's order.
- `RsvpFlow` — the group handler for a vote or results button press.
- `Points` — the category key normaliser and the points table.
- `Leaderboard` — time windows, per-user sums, the stable descending sort, the top-N cut and a user's place.
- `Checkin` — the admin's check-in session, the settlement transaction and the "done" handler.
- `Paging` — the clamped and the over-fetched pagination schemes, with their navigation buttons.
- `Text` — HTML escaping and the splitting of long messages.
- `Wizard` — the third step of the poll-creation dialogue.

Two points about the settlement and the counters, as the code has them:

- **Ledger writes.** Ledger ids are deterministic (`ci_<poll>_<uid>`, `ns_<poll>_<uid>`), but `closeCheckinTx_` writes them with `merge: false` (src/index.js:1110-1124, 1127-1141), so an entry with the same id is overwritten. Only the poll's `checkinClosed` flag prevents a second settlement, and the model writes the same way.
- **Vote counters.** `rsvpVote_` moves the stored counters by ±1, clamped at 0 (src/index.js:626-632), and never recounts them. The model does the same and proves that the counters stay equal to the numbers of YES and NO votes when they were equal before.

The functions that carry each part of the program, with the lemmas that state their properties in the table below:

- `EventDate.ParseEventYmd` (`parseEventYMD_`), `EventDate.IsLocked` (`isRsvpLocked_`) and `EventDate.DiffDays` (`diffDaysBerlin_`): ParsedIsFormatted, LockedIffOnOrBefore, LockIsMonotone, DiffDaysAgreesWithLock.
- `Rsvp.CastVote` (`rsvpVote_`): its own contract, CastVoteKeepsConsistent and the counter lemmas.
- `Card.CardLines` and `Card.CardText` (`formatRsvpCardText`), `Card.BarSegments`, `Card.RatingBar10`, the keyboards: CardShape, BarsKept, BarsDropped, BarShape, RatingBarCells, ResultsOnlyCannotVote, KeyboardActions.
- `Callbacks.Encode` and `Callbacks.Decode` (the button data and the callback handler's patterns): DecodeEncode, the parser round trips, DecodeAfterCheckin.
- `Points.NormTopicKey` and `Points.PointsForTopic` (`normTopicKey_`, `getPointsForTopic_`): their own contracts and NormIdempotent, PointsInvariant.
- `Leaderboard.Aggregate`, `Leaderboard.SortDesc`, `Leaderboard.TopMonth`, `Leaderboard.TopYear` and `Leaderboard.UserPlaceYear` (`computeTopMonth_`, `computeTopYear_`, `computeUserPlaceYear_`): AggregateUsers, AggregateTotals, SortDescCorrect, SortDescStable, TopShape, TopComplete, UserPlaceRank.
- `Checkin.CloseCheckinTx`, `Checkin.Settle` and `Checkin.CheckinDone` (`closeCheckinTx_`, the `ci_done` step); `Checkin.Pick`, `Checkin.Toggle`, `Checkin.MarkAll`, `Checkin.MarkNone` (the session buttons): CloseSettles, SettlePartition, SettleAwards, SettlePenalties, SettleKeepsOthers, CloseIdempotent, DoneTwice, ToggleFlips, ToggleTwice, MarkAllThenClose, MarkNoneThenClose.
- `Paging.ClampedPage`, `Paging.OverFetchPage`, `Paging.PickPage`, `Paging.TabNames` (the three list screens): ClampedPageIsChunk, OverFetchIsChunk, OverFetchExact, the navigation round trips, PickPoolPrefersNear, TabsPartitionVotes.
- `Text.EscHtml` and `Text.SplitText` (`escHtml_`, `splitText_`): EscHtmlIsCharwise, UnescapeEscHtml and the contract of SplitText.
- `Wizard.OnStep3Text` (step 3 of the text handler): its own contract, FirstTwoLinesTaken, CancelledExactly.

## Model

| member | source | states |
|---|---|---|
| Rsvp.CastVote | src/index.js:610-647 | A missing poll is an error. Otherwise only that poll changes. Its vote map holds the voter's new choice and name, and nothing but the two counters and the votes differs. |
| Rsvp.RevoteUnchanged | src/index.js:627-632 | Voting the same choice again leaves both counters as they were, when that choice's counter is at least 1. At 0 the clamp lets it rise to 1. |
| Rsvp.SwitchMovesOne | src/index.js:627-632 | Switching moves exactly one vote from the old choice's counter to the new one's, when the old choice's counter is at least 1 (at 0, see SwitchFromZero). |
| Rsvp.SwitchFromZero | src/index.js:627-628 | Switching away from a counter that is already 0 leaves it at 0 (the clamp). |
| Rsvp.FirstVoteAddsOne | src/index.js:631-632 | A first vote increments exactly its own counter. |
| Rsvp.VotersAfterCast | src/index.js:634-639 | After a vote the voter is among the voters of the new choice and no longer among those of the other. |
| Rsvp.VotersAfter | src/index.js:634-639 | Replacing a vote record adds the voter to the voters of its choice and removes them from the other choice's voters. |
| Rsvp.CastVoteKeepsConsistent | src/index.js:610-647 | If the counters equal the numbers of YES and NO vote records before a vote, they still do after it. |
| Rsvp.ConsistentRevote | src/index.js:627-632 | With consistent counters, repeating one's vote changes neither counter. |
| EventDate.MatchAt | src/index.js:528 | A match at a position is one or two digits, a dot, one or two digits, a dot and four digits. |
| EventDate.FirstMatchPos | src/index.js:528 | Finds the leftmost position where the date pattern matches, and reports none only when it matches nowhere. |
| EventDate.ParsedIsFormatted | src/index.js:525-534 | The parsed label equals the date written as zero-padded `YYYY-MM-DD`. |
| EventDate.ExampleTrim | src/index.js:527 | The label "21.02.2026, 14:00" is unchanged by trimming. |
| EventDate.ExampleMatch | src/index.js:528 | The pattern matches "21.02.2026, 14:00" at its start, with groups "21", "02" and "2026". |
| EventDate.ExampleDigits | src/index.js:530-533 | The groups "21", "02", "2026" denote 21 February 2026. |
| EventDate.FormattedOrder | src/index.js:546 | For `YYYY-MM-DD` strings, string order matches calendar order. |
| EventDate.LockedIffOnOrBefore | src/index.js:541-547 | A poll is locked iff its label has a date and that date is today or earlier. A label without a date is never locked. |
| EventDate.LockIsMonotone | src/index.js:541-547 | Once locked, a poll stays locked on every later day. |
| EventDate.ExampleLabel | src/index.js:525-534 | The label "21.02.2026, 14:00" is read as 21 February 2026. |
| EventDate.ExampleLock | src/index.js:541-547 | "21.02.2026, 14:00" is open on 2026-02-20 and locked on 2026-02-21 and every later day. |
| EventDate.YmdRoundTrip | src/index.js:1685-1691 | Splitting a formatted date at `-` and reading the numbers gives back the same date. |
| EventDate.YmdFromString | src/index.js:1687-1688 | A date read back from text has a non-zero year, month and day; otherwise nothing is read. |
| EventDate.SplitFormatted | src/index.js:1687 | Splitting a formatted date at `-` gives its three zero-padded fields. |
| EventDate.DaysInYear | src/index.js:1690 | The months of a year add up to 366 days in a leap year and 365 otherwise. |
| EventDate.DayNumberOrder | src/index.js:1693-1702 | The day numbers of valid dates order them as the calendar does, and two dates share a day number only if they are equal. |
| EventDate.DiffDaysAgreesWithLock | src/index.js:1693-1702 | The day difference is at most 0 exactly when the poll is locked, and exactly 0 on the event day. |
| EventDate.DayNumberLess | src/index.js:1697-1700 | An earlier valid date has a smaller day number. |
| Strings.ZeroPadOrder | src/index.js:530-533 | Zero-padded numbers of one width compare as strings the same way they compare as numbers. |
| Strings.ZeroPadCanonical | src/index.js:530-531 | Padding the matched digits with `padStart` is the same as zero-padding the number they denote. |
| Strings.JoinSplit | src/index.js:2441 | Joining the pieces of a split with the separator gives back the text. |
| Strings.TrimIdempotent | src/index.js:527 | Trimming a second time changes nothing. |
| Strings.Trim | src/index.js:527 | The result has no whitespace at either end and is no longer than the text. |
| Strings.TrimCutsWhite | src/index.js:527 | The text is a run of whitespace, then the trimmed text, then a run of whitespace. |
| Card.RoundDiv | src/index.js:510 | The result is the quotient rounded to the nearest integer, halves rounded up. |
| Card.RoundDivMonotone | src/index.js:510 | Rounding preserves order. |
| Card.RoundDivScale | src/index.js:518 | Scaling numerator and denominator by the same factor leaves the rounded quotient unchanged, so `pct / 100 * 10` rounds like `pct / 10`. |
| Card.BarSegments | src/index.js:509-514 | The bar always has exactly `totalSeg` cells. |
| Card.BarShape | src/index.js:509-514 | The bar is the filled cells followed by the empty ones. The number filled is the rounded share, clamped to `[0, totalSeg]`. |
| Card.BarMonotone | src/index.js:509-514 | A larger percentage never fills fewer cells. |
| Card.RatingBar10 | src/index.js:516-522 | The rating bar is `<code>`, ten cells, `</code>`. When the share's tenth rounds to k between 0 and 10, the first k cells are full and the rest empty; below 5 % all are empty and from 95 % all are full. |
| Card.RatingBarIsSegments | src/index.js:516-522 | The rating bar is the ten-cell `barSegments` bar wrapped in `<code>`. |
| Card.RatingBarCells | src/index.js:518 | Up to 4 % fills no cell, 95 % or more fills all ten, and in between the count is the rounded tenth. |
| Card.Pct | src/index.js:558-564 | The percentage is a rounded share of the member count when one is known. Otherwise it is a share of the votes, and 0 when there are none. |
| Card.PctOfVotes | src/index.js:560-564 | Shares of the votes are each within 0..100 and together add up to 100 or 101. |
| Card.PctOfMembers | src/index.js:559 | A share of the member count is within 0..100. |
| Card.TopicEmoji | src/index.js:496-505 | Every category key gets a non-empty emoji. |
| Card.RunnerFirst | src/index.js:497-498 | A key containing "бег" or "run" in any mix of cases gets the runner, whatever else it contains. |
| Card.ExampleEmojiCycling | src/index.js:500 | "вело" gets the cyclist. |
| Card.NonEmpty | src/index.js:581 | The filter keeps only non-empty lines. |
| Card.NonEmptyAppend | src/index.js:581 | Filtering distributes over concatenation. |
| Card.YesLine | src/index.js:567-569 | The YES line starts with the category emoji. |
| Card.NoLine | src/index.js:571-573 | The NO line starts with the cross mark. |
| Card.CardShape | src/index.js:575-581 | The card is its non-empty header lines, then the YES and NO bar lines exactly when at least one vote exists. |
| Card.BarsKept | src/index.js:575-581 | With votes, both bar lines survive the filter after the header lines. |
| Card.BarsDropped | src/index.js:567-581 | Without votes, only the non-empty header lines remain. |
| Card.FreshCard | src/index.js:566-573 | With no votes the card has no bar line and at most three lines. |
| Card.VotedCard | src/index.js:575-581 | With votes the card ends with the YES line and then the NO line. |
| Card.VoteKeyboard | src/index.js:584-596 | The vote keyboard has a YES/NO row and a row holding only the results button. |
| Card.ResultsOnlyCannotVote | src/index.js:598-606 | The locked keyboard offers no vote button. |
| Card.KeyboardActions | src/index.js:584-596 | The three buttons decode, through the callback handler, to YES, NO and results for this poll. |
| Callbacks.ParseRsvp | src/index.js:2303 | A successful parse recovers the action and an id that rebuild the data. |
| Callbacks.RsvpRoundTrip | src/index.js:588-592 | The data of every vote or results button parses back to its action and poll. |
| Callbacks.IdPage | src/index.js:1996 | A successful `(.+)_(\d+)` split rebuilds the text. |
| Callbacks.IdPageComplete | src/index.js:1996 | The `(.+)_(\d+)` pattern matches in one way only, and the parser finds it. |
| Callbacks.ParseRes | src/index.js:1965 | A successful parse gives an alphanumeric id, a tab and a page that rebuild the data. |
| Callbacks.ResComplete | src/index.js:1965 | Every string the results pattern accepts is parsed to its groups. |
| Callbacks.ResRoundTrip | src/index.js:728-754 | The data of every results tab and arrow button parses back to its poll, tab and page. |
| Callbacks.ResUnderscoreId | src/index.js:1965 | A poll id containing `_` is not accepted by the results pattern. |
| Callbacks.ParseToggle | src/index.js:2004 | A successful parse gives three groups that rebuild the data. |
| Callbacks.ToggleComplete | src/index.js:2004 | Whenever the toggle pattern matches, the parser finds a match with the same page and a first group at least as long, as the greedy pattern does. |
| Callbacks.ToggleRoundTrip | src/index.js:1869 | A toggle button's data parses back to its poll, user and page when the user id has no `_`. |
| Callbacks.ToggleUnderscoreUser | src/index.js:2004 | With `_` in the user id, the greedy first group takes part of the user id. |
| Callbacks.DecodeAfterCheckin | src/index.js:2048-2151 | Data starting with none of the prefixes `res_`, `ci_page_`, `ci_pick_`, `ci_people_`, `ci_t_`, `ci_all_` and `ci_none_` is tried as "done", then as an events page, then as an RSVP press. |
| Callbacks.DecodeEncode | src/index.js:1959-2151 | Every button the bot draws is recognised by the handler as that same button, given well-formed ids. |
| RsvpFlow.StartResultsPollId | src/index.js:1390-1397 | A poll id read from a `/start` payload has no surrounding blanks. |
| RsvpFlow.StartPayloadRoundTrip | src/index.js:2316-2317 | The deep link of the results button leads the `/start` handler back to the poll. |
| RsvpFlow.RsvpCallback | src/index.js:2303-2326 | A press on a missing poll does nothing. The results button always opens the private chat and changes nothing. |
| RsvpFlow.LockedRecordsNothing | src/index.js:2328-2356 | On a locked poll a vote press changes no state. It redraws the card from the stored counters with the results-only keyboard. |
| RsvpFlow.OpenRecordsVote | src/index.js:2358-2370 | On an open poll the press is recorded as the voter's vote. The card shows the counters after the vote. |
| RsvpFlow.KeyboardAfterVote | src/index.js:2372-2374 | After a vote the keyboard is results-only exactly when the poll is locked at redraw time. |
| RsvpFlow.CardCountsVotes | src/index.js:2358-2362 | The redrawn card's counters equal the numbers of YES and NO votes when they did before. |
| RsvpFlow.RefusedStaysRefused | src/index.js:2329-2331 | A press refused on one day is refused on every later day. |
| RsvpFlow.ExampleLockDay | src/index.js:2329-2356 | For "21.02.2026, 14:00", a press on 20 February is recorded and one on 21 February is refused. |
| Points.NormTopicKey | src/index.js:2477-2489 | The normalised key is never an alias: it is the canonical form of the input or "вело". |
| Points.CollapseWsSingleSpaced | src/index.js:2482 | After collapsing, no two blanks are adjacent and every blank is a plain space. |
| Points.NormalizedIsNormal | src/index.js:2477-2489 | Normalised keys are trimmed, lower-case, free of "ё", single-spaced and not aliases. |
| Points.NormalFixed | src/index.js:2477-2489 | Normalisation leaves a key unchanged exactly when the key is already normal. |
| Points.NormIdempotent | src/index.js:2477-2489 | Normalising twice is normalising once. |
| Points.PointsForTopic | src/index.js:2467-2495 | A topic earns the table value when its normalised key is in the table. The two keys `constructor` and `__proto__` find inherited members of the plain table object and give NaN. Every other key earns 0. Written as an award (`Number(pts \|\| 0)`) the value is one of 0, 30, 20, 15, 10, 7, 5. |
| Points.ExampleInherited | src/index.js:2491-2495 | "constructor" and "__proto__" give NaN, and the award written for them is 0. |
| Points.TableKeysNormal | src/index.js:2468-2475 | Every table key is already normal and earns its own table value. |
| Points.PointsInvariant | src/index.js:2491-2495 | Normalising a topic first does not change its points. |
| Points.ExampleRun | src/index.js:2469 | "бег" earns 30. |
| Points.ExampleUpperCaseRun | src/index.js:2469 | "БЕГ" earns 30 as well. |
| Points.ExampleAliases | src/index.js:2485-2486 | Both cycling aliases earn the 15 points of "вело". |
| Points.ExampleUnknownKey | src/index.js:2494 | A plain key that is neither in the table nor an alias earns 0. |
| Points.ExampleEmpty | src/index.js:2494 | The empty key earns 0. |
| Points.ExampleUnknown | src/index.js:2494 | "футбол" earns 0. |
| Leaderboard.InWindow | src/index.js:2555-2558 | Keeps exactly the entries with `start <= ts < end`, and never more entries than the ledger holds. |
| Leaderboard.InWindowAppend | src/index.js:2555-2558 | The window keeps the order and multiplicity of the sequence it is given: the kept entries of two stretches are those of the first followed by those of the second. |
| Leaderboard.InWindowByTs | src/index.js:2555-2558 | Entries given in ascending `ts` order, the order of the range query, stay in that order after the window filter. |
| Leaderboard.MonthsTileYear | src/index.js:2551-2553 | For years 100 to 9998, the twelve month windows are non-empty and tile the year window: January starts it, each month ends where the next starts, December ends it. |
| Leaderboard.YearNinetyNineDoesNotTile | src/index.js:2577-2579 | For year 99, December's window does not end where the year window ends: the date constructor reads 0..99 as 19xx. |
| Leaderboard.FindRow | src/index.js:2605 | Finds the first row of a user, and reports none only when no row has that id. |
| Leaderboard.AggregateUsers | src/index.js:2560-2569 | The aggregate has one row per distinct non-empty user id in the window and no row for the empty id. |
| Leaderboard.AggregateTotals | src/index.js:2560-2569 | A user's row holds the sum of their points and their last non-empty name, or the placeholder name. |
| Leaderboard.Unmentioned | src/index.js:2564-2567 | A user with no entry in the window has no name and a zero sum. |
| Leaderboard.RowIsTotal | src/index.js:2560-2571 | Every aggregate row is some window user's total row. |
| Leaderboard.SortDescCorrect | src/index.js:2572 | The sort is a permutation and its result is non-increasing in points. |
| Leaderboard.SortDescStable | src/index.js:2572 | Rows with equal points keep their relative order. |
| Leaderboard.SortDescDistinct | src/index.js:2572 | Sorting keeps user ids distinct. |
| Leaderboard.TopShape | src/index.js:2571-2574 | The top list has at most `limit` rows, is sorted by points and lists each user once. |
| Leaderboard.TopRowIsTotal | src/index.js:2551-2575 | Each top row carries a non-empty user id, that user's window total and their shown name. |
| Leaderboard.TopComplete | src/index.js:2572-2574 | A window user left out of the top list has no more points than any listed row. |
| Leaderboard.PlaceIn | src/index.js:2605-2607 | The place is the 1-based index of the user's first row, with that row's points. The place is null with 0 points when the user is absent. |
| Leaderboard.UserPlaceTotal | src/index.js:2603-2608 | A placed user is within the top 200, appears in the year's entries, and is shown with their yearly total. |
| Leaderboard.UserPlaceRank | src/index.js:2603-2608 | Every row above a user's place that has more points comes before the user. |
| Leaderboard.UserPlaceEmptyId | src/index.js:2603-2608 | The empty user id never has a place. |
| Leaderboard.SmallYearPlaced | src/index.js:2603-2608 | When at most 200 users scored in the year, every one of them has a place. |
| Checkin.DocIdInjective | src/index.js:1111 | Award and penalty ids name one (kind, poll, user) each, for user ids without `_`. |
| Checkin.DocIdClash | src/index.js:1128 | With `_` allowed in both ids, two different (poll, user) pairs share one ledger id. |
| Checkin.SettledName | src/index.js:1078-1094 | The settled name is never empty. A non-blank profile name overrides the name stored with the vote. |
| Checkin.Partition | src/index.js:1102-1106 | Arrived and no-show voters are disjoint, cover the YES voters, and their counts add up. |
| Checkin.CloseCheckinTx | src/index.js:1039-1164 | The call fails with no session or a session for another poll, and fails on a missing poll. A closed poll reports its stored counts. Only a settlement changes the store. |
| Checkin.CloseSettles | src/index.js:1039-1063 | A close settles exactly when the admin's session is for this poll and the poll exists and is still open. It then writes exactly the settlement of the session's marks. |
| Checkin.SettlePartition | src/index.js:1096-1151 | A settlement reports counts that add up to the number of YES voters, the topic's points as looked up (NaN for an inherited key) and −5. It marks only this poll closed with those counts. |
| Checkin.SettleAwards | src/index.js:1110-1125 | Every arrived YES voter gets a `ci_` entry with the topic's points, read as `Number(pts || 0)` so that NaN becomes 0, and their settled name. |
| Checkin.SettlePenalties | src/index.js:1127-1142 | Every absent YES voter gets an `ns_` entry with −5 and their settled name. |
| Checkin.SettleKeepsOthers | src/index.js:1108-1142 | Ledger entries of other polls, other users or other kinds are left untouched. |
| Checkin.SettleWritesYesVotersOnly | src/index.js:1100-1142 | Every new ledger entry belongs to a YES voter of this poll. It is an award exactly when that voter was marked present. |
| Checkin.SettleKeys | src/index.js:1108-1142 | The ledger ids after a settlement are the old ones plus one award id per arrived voter and one penalty id per absent voter. |
| Checkin.CloseIdempotent | src/index.js:1055-1063 | Closing a settled poll again reports the same counts as "already closed" and writes nothing. |
| Checkin.DoneTwice | src/index.js:2055-2074 | After "done" succeeds once, pressing it again finds no session and changes nothing. |
| Checkin.Pick | src/index.js:1986-1993 | Picking an event starts a fresh session with no marks. Other admins' sessions are unchanged. |
| Checkin.MarkAll | src/index.js:2022-2033 | After "mark all" the marks are exactly the YES voters. |
| Checkin.MarkNone | src/index.js:2035-2045 | After "mark none" no one is marked. |
| Checkin.ToggleFlips | src/index.js:2004-2020 | A toggle flips the mark of one user and leaves every other mark as it was. |
| Checkin.ToggleTwice | src/index.js:2004-2020 | Toggling the same user twice gives back the marks. |
| Checkin.ToggleKeepsForeignMarks | src/index.js:2010-2018 | Toggling in another poll's screen keeps the marks made for the first poll, then repoints the session. |
| Checkin.MarkAllThenClose | src/index.js:2022-2033 | "Mark all" then closing settles with every YES voter arrived and no one absent. |
| Checkin.MarkNoneThenClose | src/index.js:2035-2045 | "Mark none" then closing settles with no one arrived and every YES voter absent. |
| Checkin.ExampleSplit | src/index.js:1102-1106 | Voters A and B say YES; with A and D marked, A arrives, B is absent and D is ignored. |
| Checkin.ExampleRunResult | src/index.js:1153-1160 | That run closes with 1 arrived, 1 absent, 30 points and −5. |
| Checkin.ExampleRunKeys | src/index.js:1108-1142 | That run writes exactly the ids `ci_e_A` and `ns_e_B`. |
| Checkin.ExampleRunLedger | src/index.js:1108-1142 | That run gives A +30 and B −5. |
| Paging.TotalPages | src/index.js:807 | There is always at least one page. |
| Paging.ChunksCount | src/index.js:807 | The number of pages is `max(1, ceil(n / size))`. |
| Paging.ChunksFlatten | src/index.js:810-811 | The pages put together give back the list. |
| Paging.ChunksSizes | src/index.js:811 | No page holds more than the page size, and every page but the last holds exactly that many. |
| Paging.ChunkAt | src/index.js:810-811 | Page `p` is the slice from `p * size`. |
| Paging.ClampPage | src/index.js:808 | The shown page is the requested one when it exists and the last page otherwise. |
| Paging.ClampedPageIsChunk | src/index.js:806-814 | The shown page holds that page's slice. "Previous" is offered exactly past the first page and "next" exactly before the last. |
| Paging.ClampedPagesCover | src/index.js:806-814 | Walking the shown pages in order lists every item once. |
| Paging.NavPages | src/index.js:740-755 | The arrows lead only to the neighbouring pages, and exactly to those the flags allow. |
| Paging.ClampedNavExact | src/index.js:740-755 | An arrow leads to a page that exists, is shown unclamped and is not empty. |
| Paging.ResultsNavRoundTrip | src/index.js:740-755 | A results arrow decodes to the same poll and tab and to a neighbouring page, which is shown as is. |
| Paging.PeopleNavRoundTrip | src/index.js:1880-1883 | A people-screen arrow decodes to the same poll and to a page that is shown as is. |
| Paging.TabNamesNotBlank | src/index.js:800-803 | No name listed under a results tab is empty. |
| Paging.TabsPartitionVotes | src/index.js:802-803 | Every vote is listed under exactly one of the two tabs. |
| Paging.ResultsBody | src/index.js:817 | An empty page shows a dash; otherwise there is one line per name. |
| Paging.ResultsNumbering | src/index.js:817 | Numbering continues across pages: the k-th name of the list is numbered k + 1 on whatever page shows it. |
| Paging.OverFetchExact | src/index.js:1478-1487 | Fetching one extra row is enough: the page equals the same page of the full list, and "next" appears exactly when the full list continues. |
| Paging.OverFetchIsChunk | src/index.js:1485-1487 | An existing page of the events list is that page of the full list. |
| Paging.EventsNavLeadsSomewhere | src/index.js:1535-1538 | "Next" always leads to a non-empty page, as does "previous" from a non-empty page, and the arrow data decodes back. |
| Paging.NearOnlySound | src/index.js:1716-1721 | Every kept event lies within a day of today. |
| Paging.NearOnly | src/index.js:1716-1721 | The near filter never adds events. |
| Paging.NearOnlyKeeps | src/index.js:1716-1721 | No event within a day of today is dropped. |
| Paging.NearOnlyNone | src/index.js:1716-1721 | With no event within a day of today, nothing is kept. |
| Paging.PickPool | src/index.js:1710-1724 | The picker lists at most 60 events. |
| Paging.PickPoolPrefersNear | src/index.js:1723-1724 | When any of the 60 newest events is near, the picker lists all the near ones and only those. |
| Paging.PickPoolFallback | src/index.js:1724 | When none is near, the picker lists all 60 newest events. |
| Paging.PickPagesBounded | src/index.js:1726-1728 | From page 10 on, the picker shows nothing and offers no "next". |
| Text.ReplaceAll | src/index.js:470-472 | Replacing a character by text without it removes it, and adds no other characters. |
| Text.ReplaceAllAppend | src/index.js:470-472 | Replacing distributes over concatenation. |
| Text.EscHtmlIsCharwise | src/index.js:468-473 | The three replacements in sequence equal escaping each character on its own: `&`, `<` and `>` become references and other characters are kept. |
| Text.EscHtmlAppend | src/index.js:468-473 | Escaping distributes over concatenation. |
| Text.EscHtmlNoTags | src/index.js:468-473 | Escaped text contains no `<` and no `>`. |
| Text.EscHtmlPlain | src/index.js:468-473 | Text without `&`, `<` and `>` is left unchanged. |
| Text.UnescapeEscHtml | src/index.js:468-473 | Escaping loses nothing: decoding the three references gives back the original text. |
| Text.ChunksNonEmpty | src/index.js:480-483 | No chunk of a non-empty text is empty. |
| Text.SplitText | src/index.js:475-485 | Empty text gives no chunks. Otherwise the chunks put together give back the text. Each holds 1 to `maxLen` characters, and all but the last hold exactly `maxLen`. |
| Text.MessageChunks | src/index.js:465-488 | With the 3900-character limit, `splitText_` cuts a text longer than the limit but at most twice it into the first 3900 characters and the rest. |
| Wizard.NonBlankLines | src/index.js:2441 | Filtering never adds lines. |
| Wizard.NonBlankLinesShape | src/index.js:2441 | The kept lines are trimmed and not empty. |
| Wizard.OnStep3Text | src/index.js:2396-2452 | Only cancelling drops the wizard. Asking again keeps it unchanged. For a message that is not a command, the wizard moves to step 4 exactly when the message has at least two non-blank lines, and it takes the first two, trimmed, as the Russian and the German question. |
| Wizard.NonBlankLinesAppend | src/index.js:2441 | Dropping blank lines from two stretches of lines drops them from each in turn. |
| Wizard.WhiteHasNoLines | src/index.js:2441 | A message of whitespace alone has no question line. |
| Wizard.WhitePrefixLines | src/index.js:2441 | Whitespace in front of a message, line breaks included, changes none of its question lines. |
| Wizard.CancelIsOneLine | src/index.js:2404-2441 | A cancelling message holds at most one question line, so cancelling never competes with a two-line answer. |
| Wizard.FirstTwoLines | src/index.js:2441 | With blank text before the first line and between the first two, and anything after a line break, the first two question lines are those two lines, trimmed. |
| Wizard.FirstTwoLinesTaken | src/index.js:2440-2451 | Such a message moves the wizard to step 4 with the two lines, trimmed, as the Russian and the German question. |
| Wizard.ExampleExtraLines | src/index.js:2441-2451 | "ru", a blank line, "de" and a third line give the questions "ru" and "de". |
| Wizard.CommandsIgnored | src/index.js:2400-2401 | A message that starts with `/` after trimming is ignored. |
| Wizard.CancelledExactly | src/index.js:2403-2408 | With no wizard nothing happens. With one, it is cancelled exactly when the trimmed message is "отмена" in any case. |
| Wizard.CancelAnyCase | src/index.js:2404 | The cancel word works in any case and with blanks around it. |
| Wizard.Step3Cancels | src/index.js:2404-2408 | A trimmed cancel word closes the wizard and returns to the menu. |
| Wizard.ExampleCancel | src/index.js:2404 | " ОТМЕНА " cancels. |
| Wizard.TwoLinesSplit | src/index.js:2441 | Two non-empty trimmed lines give exactly those two lines. |
| Wizard.TwoLinesAccepted | src/index.js:2441-2451 | Two lines move the wizard to step 4, taking the first as the Russian question and the second as the German one. |
| Wizard.OneLineAsksAgain | src/index.js:2442-2447 | A single line asks again and keeps the wizard as it is. |

## Left out

- Process bootstrap, the PID lock, environment parsing and Firebase initialisation are operating-system and I/O work.
- Every Telegram call (send, edit, answer) and every Firestore call is I/O. Reads are inputs and writes are the returned state. The single-screen presenter, which keeps or replaces a message id, is left out with them.
- Today's date in Berlin is a parameter, not read from a clock. The name cache's expiry time, the calendar checks of the monthly and yearly posts and the ledger's timestamps are inputs too.
- The media-group debounce timer, the per-user busy flag and the cron jobs are timer and concurrency mechanics. Each handler is modelled as running alone.
- `getDisplayName_` and `applyNameOverrides_`, the profile lookups with a timed cache, are not modelled. The results lists use the name stored with each vote.
- Paging.TabNames: lists the stored vote name, not the name the profile lookup would return.
- Card.Pct: `Math.round` over floating-point division is modelled as exact rational division rounded half up. Floating-point error near a half is not modelled.
- Strings.LowerChar: `toLowerCase` is modelled for ASCII, Latin-1 and the Cyrillic letters of Russian and Ukrainian. Every other character is left unchanged.
- User ids are strings throughout, so `Number(userId)` in ledger entries is the identity. Telegram ids are decimal numbers.
- The local-time `Date` constructor of the leaderboard windows is modelled by day numbers times milliseconds per day. Time-zone offsets and daylight saving are not modelled.
- In `diffDaysBerlin_`, the difference of two noon-local `Date`s is modelled as the difference of day numbers. A daylight-saving shift of an hour rounds away in the source.
- The `need` variable of the check-in picker is computed but never used by the query, which always fetches 60 events. The model follows the query.
- Text.SplitText: requires `maxLen > 0`, since the source loops forever on 0. The only call (src/index.js:488) passes 3900, and the function making it is called only from a line that is commented out (src/index.js:1289).
- Text.SplitText: a Dafny string is a sequence of Unicode scalar values, while JavaScript's `length` and `slice` count UTF-16 code units. A character outside the Basic Multilingual Plane counts once here and twice in the source, so text such as 3900 runners "🏃" is one chunk here and two in the source. The bound `maxLen` is therefore not the source's Telegram length bound for such text.
- Leaderboard.InWindow: the order of the entry sequence stands for the order Firestore returns the range query on `ts` in: ascending `ts`, ties broken by document id. The model takes that order as given and does not sort; InWindowByTs shows the window keeps a `ts` order it is given. The leaderboard functions do not require it, and the order decides both the name kept for a user (the last non-empty one) and the order of rows with equal points.
- Leaderboard.InWindowAppend: states order and multiplicity relative to the input sequence, not relative to `ts`; the tie order by document id is not modelled.
- Text.MessageChunks: states only how `splitText_` cuts the text. `sendTextChunks_` (src/index.js:487-494) then sends only the parts that are not blank after trimming, so 3900 letters followed by one space go out as a single message; that filter is not modelled, and the function's only caller is commented out.
- Strings.LexLess: compares Unicode scalar values, while JavaScript's `<` on strings compares UTF-16 code units. The two orders differ only between characters above U+FFFF and characters from U+E000 to U+FFFF. The only strings compared are `YYYY-MM-DD` dates, which are ASCII.
- Callbacks.ToggleRoundTrip: requires a user id without `_`. Callbacks.ToggleUnderscoreUser shows what the pattern does otherwise. Telegram user ids are digits.
- Checkin.DocIdInjective: holds only for user ids without `_`, for the same reason. Checkin.DocIdClash shows the clash otherwise. The model's ledger is keyed by kind, poll and user rather than by the id string, so where two ids clash the source overwrites one Firestore document while the model keeps two entries.
- Wizard steps other than 3, the wizard's buttons and publishing a poll (posting the content and the card) are message-flow and I/O code. They do no settlement or counting.
- `closeCheckinAndApply_` and its `addPointsOnce_` are never called. `ci_done` uses `closeCheckinTx_`.
- Localised texts, menus, the rules text and the TOP-5 post text are presentation strings.
- Activity and profile screens, and the automatic lock sweep that rewrites cards, only reuse the lock rule and the leaderboard functions modelled here.
