# Reward chart, pick ledger and family calendar — a Dafny model

This project models the domain logic of three small web front ends that live in
one monorepo, with the remote store and the UI framework abstracted away:

- **Reward chart** (`ChartData`, `ChildCard`, `SettingsModal`). Each of two
  sections, kids and parents, has a grid of stars indexed by person × habit × day.
  The model covers:
  - filling in missing week rows (`initializeStars`);
  - flipping one star (`toggleStar`);
  - counting a person's stars (`calculateTotalStars`);
  - choosing the next reward milestone (`getNextMilestone`);
  - renaming the children, showing or hiding the parents, and clearing the week;
  - the card that renders one person's row, and the dialog that edits the
    children's names.
- **Last player standing pick ledger** (`Picks`). The store is an abstract value
  holding the `matchweeks`, `picks` and `team_usage` rows. Each remote request is
  answered by a parameter that says whether it succeeds. `submitPick` is a
  state transition: it checks that the team has not been reused, inserts the
  pick, then records the usage. The model also covers the three queries around
  it and the listing of open matchweeks.
- **Registration form** (`Register`): the validator that checks the password and
  its confirmation match.
- **Family calendar** (`Dates`, `Events`, `Calendar`, `EventForm`, `Text`):
  - the event list of the local-storage branch: range and category queries, and
    add, update and delete;
  - the mapping between a stored row and an event;
  - the month grid, month navigation, and selection/today highlighting;
  - the add/edit form's date and time texts, and the partial event it submits.

  Dates are integer tuples, with month 0..11 and Sunday = 0 as JavaScript reports
  them. They are ordered by their millisecond count in one fixed time zone. A
  `Date` that failed to parse is `InvalidDate`, and every comparison with it is
  false.

Common pieces are in `Common`: `Option`, `Result`, and an order-preserving
`Filter`.

The pick ledger's `Entry` carries `lives_remaining`, `is_active` and
`payment_status` (apps/last-player-standing/src/app/core/models/entry.model.ts),
but the service enforces none of them. The model follows the code:

- The code checks only team reuse, and only against the `picks` table.
- There is no one-pick-per-matchweek check, no check that the entry is active or
  paid, and no deadline check.
- No outcome is resolved and no life is taken.
- A failed usage insert leaves the new pick behind.

## Model

| member | source | states |
|---|---|---|
| ChartData.EmptyRow | apps/reward-chart/src/app/services/chart-data.service.ts:92 | a new row has seven cells, all unset |
| ChartData.InitializeSection | apps/reward-chart/src/app/services/chart-data.service.ts:86-95 | after filling, every slot below the person and habit counts has a row; existing rows are untouched; added rows are empty weeks |
| ChartData.InitializeStars | apps/reward-chart/src/app/services/chart-data.service.ts:83-109 | both sections are covered for every person and habit, and nothing outside the two grids changes |
| ChartData.InitializeKeepsCells | apps/reward-chart/src/app/services/chart-data.service.ts:83-109 | filling rows changes the filled state of no star |
| ChartData.InitializeIdempotent | apps/reward-chart/src/app/services/chart-data.service.ts:83-109 | filling an already filled grid is a no-op |
| ChartData.ResetWeek | apps/reward-chart/src/app/services/chart-data.service.ts:219-223 | after a reset both grids have exactly the shape initialisation gives, every row a blank seven-day week, and nothing else changes |
| ChartData.ResetClearsCells | apps/reward-chart/src/app/services/chart-data.service.ts:219-223 | no star is set anywhere after a reset |
| ChartData.ResetWeekZeroTotals | apps/reward-chart/src/app/services/chart-data.service.ts:219-223 | after a reset every person's total is zero |
| ChartData.FlipAt | apps/reward-chart/src/app/services/chart-data.service.ts:160 | the addressed cell reads negated and every other cell reads as before, also when the write lands past the end of the array and grows it |
| ChartData.ToggleStar | apps/reward-chart/src/app/services/chart-data.service.ts:157-163 | fails exactly when the person/habit row is missing; otherwise flips exactly the addressed cell, keeps every other cell and the set of rows, and leaves the other section and all other chart fields unchanged |
| ChartData.ToggleTwiceRestoresCells | apps/reward-chart/src/app/services/chart-data.service.ts:160 | toggling the same cell twice restores every star |
| ChartData.ToggleTwiceIdentity | apps/reward-chart/src/app/services/chart-data.service.ts:157-163 | for a day inside the row, toggling twice gives back the identical chart |
| ChartData.ToggleKeepsWeekRows | apps/reward-chart/src/app/services/chart-data.service.ts:160 | a toggle within the week keeps every row exactly seven days long |
| ChartData.CountTrue | apps/reward-chart/src/app/services/chart-data.service.ts:184 | a row's star count is at most its length and is zero exactly when no cell is set |
| ChartData.FlipAtCount | apps/reward-chart/src/app/services/chart-data.service.ts:160 | a flip moves the row's star count up by one when it sets the cell, down by one when it clears it |
| ChartData.CalculateTotalStars | apps/reward-chart/src/app/services/chart-data.service.ts:176-188 | the loop's total is the number of set cells in the person's rows for habits below the habit count, missing rows counting zero |
| ChartData.MissingPersonHasNoStars | apps/reward-chart/src/app/services/chart-data.service.ts:183 | a person with no rows has a total of zero |
| ChartData.TotalStarsBound | apps/reward-chart/src/app/services/chart-data.service.ts:176-188 | on a grid of week rows a total never exceeds seven times the habit count |
| ChartData.ToggleChangesTotalByOne | apps/reward-chart/src/app/services/chart-data.service.ts:176-188 | toggling a counted habit's cell moves the person's total by exactly one, in the direction of the new cell value |
| ChartData.InsertDistinct | apps/reward-chart/src/app/services/chart-data.service.ts:193 | inserting keeps the list strictly increasing and adds exactly the new value |
| ChartData.Milestones | apps/reward-chart/src/app/services/chart-data.service.ts:193 | the milestone list is strictly increasing (deduplicated and sorted) and holds exactly the reward thresholds |
| ChartData.ScanFrom | apps/reward-chart/src/app/services/chart-data.service.ts:195-200 | the scan yields the first milestone above the star count, else the last milestone, and nothing only for an empty list |
| ChartData.NextMilestone | apps/reward-chart/src/app/services/chart-data.service.ts:190-201 | undefined exactly for no rewards; otherwise a reward threshold that is the smallest one strictly above the stars, or the largest when none is above |
| ChartData.NextMilestoneMonotone | apps/reward-chart/src/app/services/chart-data.service.ts:193-200 | the next milestone never decreases as the star count grows |
| ChartData.NextMilestoneDependsOnThresholdsOnly | apps/reward-chart/src/app/services/chart-data.service.ts:193 | two reward lists with the same set of thresholds give the same milestone, so duplicates and order do not matter |
| ChartData.ToggleParentsVisibility | apps/reward-chart/src/app/services/chart-data.service.ts:203-207 | the visibility flag is negated and nothing else changes |
| ChartData.ToggleParentsVisibilityTwice | apps/reward-chart/src/app/services/chart-data.service.ts:203-207 | toggling the visibility twice is the identity |
| ChartData.UpdateChildrenNames | apps/reward-chart/src/app/services/chart-data.service.ts:209-217 | child i takes names[i] when there is one and keeps its name otherwise; extra names are ignored; colours, classes, parents and all else are unchanged |
| ChartData.UpdateWithOwnNamesIsIdentity | apps/reward-chart/src/app/services/chart-data.service.ts:209-217 | saving the names the children already have leaves the chart unchanged |
| ChartData.StartState | apps/reward-chart/src/app/services/chart-data.service.ts:14-75 | the state the service starts from has week rows for every member and habit, and everyone's total is zero |
| ChartData.StartStateHasNoStars | apps/reward-chart/src/app/services/chart-data.service.ts:73-75 | initialising the built-in chart leaves every total at zero |
| ChildCard.ProgressPercent | apps/reward-chart/src/app/components/child-card/child-card.component.ts:31-33 | with a positive milestone the progress never exceeds 100, is stars·100/milestone below the milestone and exactly 100 at or above it, and is non-negative for non-negative stars |
| ChildCard.CardFor | apps/reward-chart/src/app/components/child-card/child-card.component.ts:20-27 | the card for a person gets that person, index, section, the section's stars, the person's total, and the next milestone, which is undefined exactly when the section has no rewards |
| ChildCard.ProgressMonotone | apps/reward-chart/src/app/components/child-card/child-card.component.ts:31-33 | more stars toward the same milestone never show less progress |
| ChildCard.IsStarFilled | apps/reward-chart/src/app/components/child-card/child-card.component.ts:35-37 | a star shows filled only when its row exists, and then exactly when the day is inside the row and set |
| ChildCard.OnStarClick | apps/reward-chart/src/app/components/child-card/child-card.component.ts:39-46 | the emitted event carries the card's section and person and the clicked habit and day unchanged |
| ChildCard.ClickFlipsShownStar | apps/reward-chart/src/app/components/child-card/child-card.component.ts:35-46 | on an initialised grid, the event a click emits, handed to the chart's toggle, flips exactly the star the card shows there |
| ChildCard.GetCardClasses | apps/reward-chart/src/app/components/child-card/child-card.component.ts:52-61 | the classes always begin with the base classes and a space, followed by the mapped colour classes for the four known class names and by nothing for any other |
| ChildCard.InitialMembersAreColoured | apps/reward-chart/src/app/components/child-card/child-card.component.ts:54-59 | every member of the built-in chart has a class name the colour map knows |
| SettingsModal.NgOnChanges | apps/reward-chart/src/app/components/settings-modal/settings-modal.component.ts:21-27 | with three or more names the fields take the first three in order; with fewer nothing changes |
| SettingsModal.OnClose | apps/reward-chart/src/app/components/settings-modal/settings-modal.component.ts:29-31 | closing emits exactly one close event |
| SettingsModal.OnSave | apps/reward-chart/src/app/components/settings-modal/settings-modal.component.ts:33-36 | saving emits the three fields in order, then closes |
| SettingsModal.OnOverlayClick | apps/reward-chart/src/app/components/settings-modal/settings-modal.component.ts:38-42 | a click closes exactly when its target carries the overlay class; otherwise nothing is emitted |
| SettingsModal.SaveUnchangedNamesIsIdentity | apps/reward-chart/src/app/components/settings-modal/settings-modal.component.ts:33-36 | opening the dialog on a three-child chart and saving unchanged leaves the chart as it was |
| SettingsModal.SaveRenamesChildren | apps/reward-chart/src/app/components/settings-modal/settings-modal.component.ts:33-36 | the three fields become the three children's names, in order |
| Register.PasswordMatchValidator | apps/last-player-standing/src/app/features/auth/register/register.component.ts:33-42 | reports a mismatch exactly when both controls exist and their values differ; then the confirmation's errors become the mismatch error; otherwise the form is untouched; the password control never changes |
| Register.EqualPasswordsValidate | apps/last-player-standing/src/app/features/auth/register/register.component.ts:37-41 | equal values always validate, whatever errors the controls carry |
| Register.ValidatorIdempotent | apps/last-player-standing/src/app/features/auth/register/register.component.ts:37-40 | running the validator on its own output gives the same verdict and form |
| Picks.PicksOfTeam | apps/last-player-standing/src/app/core/services/picks.service.ts:75-79 | the query finds no row exactly when the entry never picked that exact team string |
| Picks.ValidateTeamNotUsed | apps/last-player-standing/src/app/core/services/picks.service.ts:74-83 | a failed read is thrown; otherwise the answer is true exactly when no pick of the entry has the identical team string |
| Picks.SubmitPick | apps/last-player-standing/src/app/core/services/picks.service.ts:47-95 | a reused team fails with the already-selected error and writes nothing; a failed read or pick insert writes nothing; success appends exactly one pick with the given fields and no result, then exactly one usage row with times_used 1; a failed usage insert keeps the pick and adds no usage; matchweeks never change |
| Picks.SubmitPickKeepsNoRepeats | apps/last-player-standing/src/app/core/services/picks.service.ts:49-66 | every outcome of a submission keeps "no entry holds the same team twice" |
| Picks.RunKeepsNoRepeats | apps/last-player-standing/src/app/core/services/picks.service.ts:47-72 | when picks change only by sequential submissions, no entry ever holds the same team twice |
| Picks.GetTeamUsage | apps/last-player-standing/src/app/core/services/picks.service.ts:97-105 | a failed read is thrown; otherwise the list holds every team the entry picked and nothing from other entries |
| Picks.ValidateAgreesWithUsage | apps/last-player-standing/src/app/core/services/picks.service.ts:74-105 | a team passes the reuse check exactly when it is missing from the entry's usage list |
| Picks.SubmittedTeamIsUsed | apps/last-player-standing/src/app/core/services/picks.service.ts:97-105 | after a successful submission the team is in the entry's usage list |
| Picks.GetUserPicksForMatchweek | apps/last-player-standing/src/app/core/services/picks.service.ts:35-45 | a failed read is thrown unless its code is PGRST116; the answer is a pick of that entry and matchweek; after a successful read a pick is returned exactly when one row matches, so no match and several matches both give null, not an error |
| Picks.SubmittedPickIsFound | apps/last-player-standing/src/app/core/services/picks.service.ts:35-45 | the pick just submitted for a matchweek with no earlier pick is the one the lookup returns |
| Picks.InsertByWeek | apps/last-player-standing/src/app/core/services/picks.service.ts:18 | inserting keeps the list ordered by week number and adds exactly that matchweek |
| Picks.SortByWeek | apps/last-player-standing/src/app/core/services/picks.service.ts:18 | the result is ordered by ascending week number and is a permutation of the input |
| Picks.GetAvailableMatchweeks | apps/last-player-standing/src/app/core/services/picks.service.ts:12-22 | a failed read is thrown; otherwise exactly the competition's open or upcoming matchweeks, each as often as stored, in ascending week number |
| Text.NatToString | apps/family-calendar/src/app/components/event-form/event-form.component.ts:69-71 | the decimal text is non-empty and all digits, has no leading zero, and is one character exactly for values below ten |
| Text.IntToString | apps/family-calendar/src/app/components/event-form/event-form.component.ts:71 | a negative number is written as a minus sign followed by its magnitude |
| Text.ParseNatToString | apps/family-calendar/src/app/components/event-form/event-form.component.ts:69-71 | reading the decimal text of n gives n back |
| Text.PadStart2 | apps/family-calendar/src/app/components/event-form/event-form.component.ts:69-70 | the result is at least two characters, the input unchanged when already that long, else the input preceded by zeros |
| Text.PadTwoDigits | apps/family-calendar/src/app/components/event-form/event-form.component.ts:69-70 | a value below 100, padded, is its tens digit followed by its units digit |
| Text.FourDigits | apps/family-calendar/src/app/components/event-form/event-form.component.ts:71 | a four-digit year is written as its four digits |
| Dates.DaysInMonth | apps/family-calendar/src/app/components/calendar/calendar.component.ts:35-36 | February has 29 days exactly in leap years and 28 otherwise; April, June, September and November have 30; the other seven months have 31 |
| Dates.MonthEndMeetsNextStart | apps/family-calendar/src/app/components/calendar/calendar.component.ts:35-37 | the day after the last day of any month, by the day count, is day 1 of the next month, December to January included, so month lengths and weekdays agree |
| Dates.Weekday | apps/family-calendar/src/app/components/calendar/calendar.component.ts:37 | the weekday is one of the seven, Sunday = 0 |
| Dates.EpochIsThursday | apps/family-calendar/src/app/components/calendar/calendar.component.ts:37 | 1 January 1970 is day 0 and a Thursday |
| Dates.NewYear2024IsMonday | apps/family-calendar/src/app/components/calendar/calendar.component.ts:37 | 1 January 2024 is a Monday |
| Dates.LeapDay2000IsTuesday | apps/family-calendar/src/app/components/calendar/calendar.component.ts:37 | 29 February 2000 is a Tuesday |
| Dates.WeekdayOfDay | apps/family-calendar/src/app/components/calendar/calendar.component.ts:37-51 | each day of a month falls one weekday after the day before |
| Dates.MonthStart | apps/family-calendar/src/app/components/calendar/calendar.component.ts:58-66 | the constructed date is a valid first of a month whose absolute month number equals year·12 + month, so months outside 0..11 carry into the year |
| Dates.MonthStartInjective | apps/family-calendar/src/app/components/calendar/calendar.component.ts:58-66 | two month starts are equal exactly when they name the same absolute month |
| Dates.NextMonth | apps/family-calendar/src/app/components/calendar/calendar.component.ts:63-66 | the next month is day 1 of the following month, and December moves to January of the next year |
| Dates.PreviousMonth | apps/family-calendar/src/app/components/calendar/calendar.component.ts:58-61 | the previous month is day 1 of the preceding month, and January moves to December of the year before |
| Dates.PreviousAfterNext | apps/family-calendar/src/app/components/calendar/calendar.component.ts:58-66 | going back after going forward lands on day 1 of the month one started in |
| Dates.NextAfterPrevious | apps/family-calendar/src/app/components/calendar/calendar.component.ts:58-66 | going forward after going back lands on day 1 of the month one started in |
| Dates.JsMonthStart | apps/family-calendar/src/app/components/calendar/calendar.component.ts:60 | the constructor as the language defines it agrees with the plain month start except that a year argument 0..99 is read as 1900 + year |
| Dates.JsNextMonth | apps/family-calendar/src/app/components/calendar/calendar.component.ts:63-66 | as written, the next-month step agrees with the plain one outside years 0..99 |
| Dates.JsPreviousMonth | apps/family-calendar/src/app/components/calendar/calendar.component.ts:58-61 | as written, the previous-month step agrees with the plain one outside years 0..99 |
| Dates.JsNavigationSkipsCenturies | apps/family-calendar/src/app/components/calendar/calendar.component.ts:58-66 | as written, back from January 100 then forward lands in January 2000, not January 100 |
| Dates.JsDaysInMonth | apps/family-calendar/src/app/components/calendar/calendar.component.ts:35-36 | as written, the month length the grid uses is the true one outside years 0..99 and that of year 1900 + year inside them |
| Dates.JsFebruaryOfYearZero | apps/family-calendar/src/app/components/calendar/calendar.component.ts:35-36 | as written, the grid for February of year 0 has 28 days, though that February has 29 |
| Events.CategoryColor | apps/family-calendar/src/app/models/event.model.ts:42-51 | a colour exists exactly for the eight event categories |
| Events.GetEventsByDateRange | apps/family-calendar/src/app/services/event.service.ts:50-56 | the result holds every event whose start is at or before the range end and whose end is at or after the range start, and only such events |
| Events.DateRangeKeepsOrder | apps/family-calendar/src/app/services/event.service.ts:50-56 | the range query distributes over concatenation, so it keeps list order |
| Events.InvalidDatesNeverListed | apps/family-calendar/src/app/services/event.service.ts:52-54 | an event with an unparseable start or end is in no range |
| Events.GetEventsByCategory | apps/family-calendar/src/app/services/event.service.ts:58-60 | the result holds every event of the category and only such events |
| Events.CategoryKeepsOrder | apps/family-calendar/src/app/services/event.service.ts:58-60 | the category query distributes over concatenation, so it keeps list order |
| Events.AddEvent | apps/family-calendar/src/app/services/event.service.ts:62-69 | the list grows by one: the old events unchanged in front, the new event with the fresh id at the end |
| Events.DeleteEvent | apps/family-calendar/src/app/services/event.service.ts:84-91 | no event with the id remains, every kept event was in the list, every other event is kept, and an absent id changes nothing |
| Events.DeleteKeepsOrder | apps/family-calendar/src/app/services/event.service.ts:88 | deleting from a list in two parts deletes from each part, so the kept events stay in their order |
| Events.DeleteKeepsOthersFirst | apps/family-calendar/src/app/services/event.service.ts:88 | an event without the id at the front of the list stays at the front |
| Events.DeleteIdempotent | apps/family-calendar/src/app/services/event.service.ts:84-91 | deleting twice equals deleting once |
| Events.DeleteUndoesAdd | apps/family-calendar/src/app/services/event.service.ts:62-91 | deleting an event just added under a fresh id restores the list |
| Events.ApplyPatch | apps/family-calendar/src/app/services/event.service.ts:77 | for every field, the spread takes the value from the partial event when the partial event carries that key, and keeps the event's own value otherwise; an empty patch changes nothing |
| Events.ApplyPatchIdempotent | apps/family-calendar/src/app/services/event.service.ts:77 | applying the same partial event again changes nothing more |
| Events.UpdateEvent | apps/family-calendar/src/app/services/event.service.ts:72-81 | the length is kept; each event with the id becomes that event with the partial event spread over it, field by field as the spread does; every other event is unchanged |
| Events.UpdateIdempotent | apps/family-calendar/src/app/services/event.service.ts:72-81 | repeating an update changes nothing more, even when the patch changes the id |
| Events.NonEmpty | apps/family-calendar/src/app/services/event.service.ts:201 | "or undefined" on a string keeps it exactly when it is present and non-empty |
| Events.NonZero | apps/family-calendar/src/app/services/event.service.ts:194 | "or undefined" on a number keeps it exactly when it is present and non-zero |
| Events.RuleOfRow | apps/family-calendar/src/app/services/event.service.ts:188-196 | a rule exists exactly when the row recurs with a non-empty frequency; it has that frequency, an interval defaulting to 1 for null or 0, an end date exactly when the row has one (that instant), the row's days of the week, and a count dropped when 0 |
| Events.DbEventToCalendarEvent | apps/family-calendar/src/app/services/event.service.ts:187-212 | the id, title, category, flag, dates and attendees carry over; the rule is the one read from the row's recurrence columns; description, colour, location and creator are the row's text when non-empty and absent otherwise |
| Events.ToIso | apps/family-calendar/src/app/services/event.service.ts:218-219 | formatting succeeds exactly for a valid date, giving that date |
| Events.RuleEndOfEvent | apps/family-calendar/src/app/services/event.service.ts:224 | formatting the rule's end date fails exactly when it is present and invalid |
| Events.CalendarEventToDbEvent | apps/family-calendar/src/app/services/event.service.ts:214-238 | fails exactly on an invalid start, end or rule end date; otherwise the id is included exactly when requested and non-empty; title, category, flag, attendees and the start and end instants carry over; description, colour, location and creator become null when absent or empty; without a rule every recurrence column is null, and with one the frequency, interval and count are set when non-empty or non-zero, the days of the week carry over and the end date is set exactly when the rule has one |
| Events.RecurrenceSurvivesRoundTrip | apps/family-calendar/src/app/services/event.service.ts:188-223 | a recurring row with a frequency and a positive interval keeps both through row to event to row |
| Events.MissingIntervalDefaultsToOne | apps/family-calendar/src/app/services/event.service.ts:191 | a recurring row with a null or zero interval reads as every 1 and is written back as 1 |
| Events.RowRoundTrip | apps/family-calendar/src/app/services/event.service.ts:187-238 | a normal row (no empty strings or zeros where null is meant; a recurring row with a frequency has a non-zero interval; any other row has no recurrence columns) read and written back again gives the same columns, with the id included exactly when non-empty |
| Events.EventRoundTrip | apps/family-calendar/src/app/services/event.service.ts:187-238 | an event in the form the service reads comes back field for field through row and back |
| Calendar.GetEventsForDate | apps/family-calendar/src/app/components/calendar/calendar.component.ts:92-96 | a day's events are exactly those overlapping 00:00:00.000 to 23:59:59.000 of that day |
| Calendar.EventWithinDayIsListed | apps/family-calendar/src/app/components/calendar/calendar.component.ts:92-96 | an event that starts and ends on a day, before its last sub-second, is listed on that day |
| Calendar.LastSubSecondIsOnNoDay | apps/family-calendar/src/app/components/calendar/calendar.component.ts:94 | an event wholly inside 23:59:59.001 to 23:59:59.999 is listed on neither its day nor the next |
| Calendar.MonthCells | apps/family-calendar/src/app/components/calendar/calendar.component.ts:46-51 | the cells run over the days in ascending order, each dated at midnight, in the month, and holding that day's events |
| Calendar.Blanks | apps/family-calendar/src/app/components/calendar/calendar.component.ts:41-44 | the leading cells are blanks: no date, not in the month, no events |
| Calendar.CalendarDays | apps/family-calendar/src/app/components/calendar/calendar.component.ts:29-54 | the grid has weekday-of-the-first plus days-in-month cells: the leading blanks, then cell start + d − 1 holds day d with its events |
| Calendar.CellsLineUpWithWeekdays | apps/family-calendar/src/app/components/calendar/calendar.component.ts:34-51 | every dated cell is valid and sits in the column of its own weekday |
| Calendar.IsSelected | apps/family-calendar/src/app/components/calendar/calendar.component.ts:84-90 | false when either date is absent, otherwise true exactly on the same year, month and day |
| Calendar.IsToday | apps/family-calendar/src/app/components/calendar/calendar.component.ts:76-82 | false for no date, otherwise true exactly on today's year, month and day |
| Calendar.OneSelectedCell | apps/family-calendar/src/app/components/calendar/calendar.component.ts:84-90 | when the selected date is in the month shown, exactly the cell for its day is selected |
| Calendar.OtherMonthNeverHighlighted | apps/family-calendar/src/app/components/calendar/calendar.component.ts:76-90 | no cell is selected or marked today for a date outside the month shown |
| Calendar.GetEventColor | apps/family-calendar/src/app/components/calendar/calendar.component.ts:98-100 | the event's own colour when it is non-empty, else its category's colour |
| Calendar.KnownCategoryHasColor | apps/family-calendar/src/app/components/calendar/calendar.component.ts:98-100 | every event of one of the eight categories is drawn in some colour |
| EventForm.FreshForm | apps/family-calendar/src/app/components/event-form/event-form.component.ts:16-26 | a new form starts with category personal, weekly frequency, interval 1, not recurring, and empty title, description, dates, times and location |
| EventForm.PaddedReadsBack | apps/family-calendar/src/app/components/event-form/event-form.component.ts:69-70 | a padded value below 100 is two digits that read back as the value |
| EventForm.YearReadsBack | apps/family-calendar/src/app/components/event-form/event-form.component.ts:71 | a four-digit year is four digits that read back as the year |
| EventForm.FormatDate | apps/family-calendar/src/app/components/event-form/event-form.component.ts:67-72 | an invalid date gives NaN-NaN-NaN; every valid date gives the year's decimal text, a dash, two digits reading back as month + 1, a dash and two digits reading back as the day; with a four-digit year that is ten characters with dashes at 4 and 7 whose fields read back as the year, month + 1 and day |
| EventForm.FormatTime | apps/family-calendar/src/app/components/event-form/event-form.component.ts:74-79 | an invalid date gives NaN:NaN; a valid time gives five characters with a colon at 2, whose fields read back as the hours and minutes |
| EventForm.FormatDateReadsDayOnly | apps/family-calendar/src/app/components/event-form/event-form.component.ts:67-72 | the date text depends on the calendar day only |
| EventForm.ParseLocal | apps/family-calendar/src/app/components/event-form/event-form.component.ts:82-83 | text parses to a date-time exactly when it has the YYYY-MM-DDTHH:MM shape and names a real day and minute; the result has second 0 and carries the fields read at those positions |
| EventForm.JoinedFields | apps/family-calendar/src/app/components/event-form/event-form.component.ts:82-83 | joining a date text and a time text with T puts their fields where the parser reads them |
| EventForm.DateTimeTextRoundTrip | apps/family-calendar/src/app/components/event-form/event-form.component.ts:67-83 | for a four-digit year, the date and time texts joined by T parse back to the same minute |
| EventForm.PopulateForm | apps/family-calendar/src/app/components/event-form/event-form.component.ts:51-65 | every field is taken from the event, with absent texts as empty; frequency and interval are taken only when the event has a rule and otherwise keep their prior values |
| EventForm.NgOnInit | apps/family-calendar/src/app/components/event-form/event-form.component.ts:31-42 | with an event the form is populated from it; without one both dates are today and the times are 09:00 and 10:00 |
| EventForm.NgOnChanges | apps/family-calendar/src/app/components/event-form/event-form.component.ts:44-49 | with an event it fills the form exactly as initialisation does; with no event the form is unchanged |
| EventForm.OnSubmit | apps/family-calendar/src/app/components/event-form/event-form.component.ts:81-110 | the payload has an id exactly when editing, and a rule of the form's frequency and interval exactly when recurring (an explicit undefined otherwise); its dates are the parsed date and time texts; title, category, flag, description and location are the form's; colour, creator and attendees are left out |
| EventForm.NewEventDefaultsToNineToTen | apps/family-calendar/src/app/components/event-form/event-form.component.ts:31-42 | a new event submitted untouched runs from 09:00 to 10:00 today and has no id |
| EventForm.UnchangedEditKeepsEvent | apps/family-calendar/src/app/components/event-form/event-form.component.ts:51-110 | editing an event the form can fully show and submitting unchanged gives a patch that leaves the event as it was |

## Left out

- Remote store and network I/O, async/await, error logging and the reactive state
  containers. Each store request is a parameter that succeeds or fails with an
  error object, and each operation returns the new state.
- The remote branches of the calendar's add, update and delete, the remote load,
  and the whole local-storage JSON persistence and reload. These are I/O; the
  model covers the local list operations only.
- `getFixturesForMatchweek`: a plain read with no logic beyond the store's
  filter and order.
- The check-then-insert race between concurrent `submitPick` calls. The model is
  sequential only.
- Lives, elimination, matchweek resolution, one pick per matchweek, deadlines and
  payment checks. The code enforces none of them.
- `getCurrentWeekDisplay`, the clock reading in `isToday`, `goToToday` and the
  form's "today", and the random `generateId`. The current time and the fresh id
  are parameters.
- Time zones, daylight saving and the ISO text of stored timestamps. A stored
  timestamp is the instant itself, and ordering uses one fixed zone.
- `new Date(text)` beyond the `YYYY-MM-DDTHH:MM` shape the form produces. Text of
  any other shape, hour 24 and days past the month's end all parse as invalid;
  JavaScript engines differ on these.
- Years below 1000 in the date round trip. `String(year)` is not padded, so such
  years print with fewer than four digits and do not take the ISO shape.
- `ChildCard.ProgressPercent`: uses exact real arithmetic and requires a positive
  milestone. Floating-point rounding, and the `NaN`/`Infinity` a zero or
  undefined milestone gives, are not modelled.
- `ChildCard.GetCardClasses`: a class name that is an inherited property of a
  plain object (such as `constructor`) would look up a function there. That
  lookup is not modelled.
- Parts of `Partial<CalendarEvent>` are not modelled: a patch cannot set a
  required field (title, dates, category, flag, id) to `undefined`.
- `Events.DbEventToCalendarEvent`: the frequency is taken as the stored string and
  is not checked against the four frequencies. The category is likewise taken
  unchecked, as the code's type cast does.
- `Events.RowRoundTrip`: is proved for normal rows only. The service also
  writes rows outside that set: a rule with interval 0 is stored with frequency
  set and a null interval. Such a row reads back with interval 1 and is written
  again with 1, so it does not come back column for column
  (`Events.MissingIntervalDefaultsToOne` states what happens to it).
- `Events.CategoryColor`: has no colour for any string outside the eight
  categories. The colour table is a plain object, so for a stored category
  such as `constructor` or `toString` the lookup returns an inherited member
  of `Object.prototype`, not `undefined`. That lookup is not modelled, as for
  `ChildCard.GetCardClasses`.
- `Calendar.CalendarDays`: builds the grid for the shown year as it is. For a
  shown year 0..99 the code's `new Date(year, month, day)` builds it in year
  1900 + year instead, so its month length and first weekday can differ (see
  `Dates.JsDaysInMonth` and Findings).
- `Calendar.MonthCells`: dates each cell in the shown year. For years 0..99 the
  code dates the cells in 1900 + year.
- `Calendar.GetEventsForDate`: the day window starts and ends on the cell's own
  date. For years 0..99 the code's window lies in 1900 + year.
- The month and day name tables, `selectDate`, the edit/delete click handlers,
  `onCancel`, the auth, payment, guard, routing, header, login and rewards-dialog
  code, the Tailwind and ESLint configuration, and the `.spec.ts` test files.
  These are UI plumbing, static data or tests.

## Findings

| source | as written | input that shows it | evidently intended | confidence | as-written member | corrected member |
|---|---|---|---|---|---|---|
| apps/family-calendar/src/app/components/calendar/calendar.component.ts:58-66 | `new Date(year, month ± 1, 1)` reads a year argument from 0 to 99 as 1900 + year. The same constructor call builds the month grid (lines 34, 48) and the day window (lines 93-94). | From January of year 100, previous month shows December 99. Next month from there shows January 2000, not January 100. | Each step moves by exactly one month, so going back then forward returns to the starting month. | high that the language behaves so, low practical impact; not executed | Dates.JsNavigationSkipsCenturies | Dates.PreviousAfterNext |
| apps/family-calendar/src/app/components/calendar/calendar.component.ts:34-37 | `new Date(year, month + 1, 0).getDate()` takes the month length in year 1900 + year when the shown year is 0 to 99. | February of year 0, a leap year: the grid lays out 28 days, the length of February 1900. | The grid has as many days as the shown month. | high that the language behaves so, low practical impact; not executed | Dates.JsFebruaryOfYearZero | Calendar.CalendarDays |
