# icloud-mcp: verified models

Dafny models of the hardest logic in icloud-mcp, the server that gives an MCP host access to
iCloud Calendar (CalDAV), Contacts (CardDAV) and Mail (IMAP, SMTP). Seven components are
modelled, each with the theorem that its design rests on.

* **Recurrence engine.** `Arithmetic`, `Gregorian`, `CyclicGap`, `RecurrenceRules`,
  `ClockSelectors`, `DateSelectors`, `SelectorSafety`, `RuleMeaning`: before a rule is iterated, a bounded scan
  decides whether it can ever fire and how long its longest empty gap is; the answers are proved
  exact for all time, against selectors whose meaning is stated with dates, list membership and counted
  days. `OccurrenceExpansion`, `DeleteOccurrence`: the rows of a window, and what a
  deleted occurrence does to every later expansion (sections 3.3.10, 3.8.5.1 and 3.8.4.4 of RFC 5545).
* **Free-slot finder.** `FreeSlots`: merge, complement, working-hours walk and greedy placement,
  specified by the instants each stage covers.
* **Concurrent protocols.** `UpdateIdempotency`, `SendIdempotency` (with `SendFingerprint`) and
  `Discovery`: every critical section is one atomic step; the theorems hold in every state of every
  interleaving of any number of callers.
* **Mail.** `MailPaging`: following the cursor enumerates the mailbox. `ImapMove`: moving a message
  against a server that may apply a command and lose the reply.
* **Raw vCards.** `RawProperty`, `RawCard`, `CardPatch`: a grammar, a parser proved sound and
  complete for it, and a patcher proved to be a splice (section 3.2 of RFC 6350).
* **Byte machines.** `RedactingWriter`, `GuardedConn`: stateful writers and readers whose result does
  not depend on how the stream is cut.
* **Bounded parsers.** `ICalDuration`, `OpaquePath` (with `Decimal`, `Text`): DURATION values
  (section 3.3.6 of RFC 5545), iterated percent-decoding, canonical paths and URL containment.

`Wrappers` holds the optional value and `Sequences` a shared predicate. Code that the source runs as a loop or as an object whose fields
change is a method or a class here, proved against a specification function or predicate; the theorems
are about those specifications. `dafny verify dfyconfig.toml` verifies the whole project.

Three properties that the source's comments suggest fail on some inputs. Each has a concrete input and
the exact condition.

* Expansion shows every overlapping occurrence exactly when its lower bound reaches back a full day of
  drift (`ShowsEverythingExact`). The guard against overflow skips the widening for nominal durations
  within a day of the runtime maximum; `BoundMayLose` gives a yearly event of 106751 days, a zone and a
  window for which a specified row is not shown.
* Following the mail cursor returns every match exactly when every matching summary fits a page on its
  own (`CollectPages`). `OversizedSummaryIsDropped` gives a mailbox of one message whose summary is larger
  than a page. The equivalence is for pages that hold only summaries that fit alone, which serialized
  sizes do (`SummedHoldsSingles`), and for mailboxes where no summary lies within the few bytes that the
  two page flags add; inside that margin each direction is stated with its own flags.
* A caller blocked on discovery can still wake exactly as long as its channel is closed or no attempt has
  panicked (`WaitersAreOwned`). Neither client frees the flight when the attempt unwinds, and handlers
  recover panics; `PanicLosesWakeUp` is such a run, and `PanicStrands` says that no later caller runs or
  publishes.

## Model

| member | source | states |
|---|---|---|
| `Gregorian.CivilRoundTrip` | internal/icloud/recurrence.go:729-735 | Reading a day's year, month and day and rebuilding the date gives the same day, for every day of the proleptic calendar. |
| `Gregorian.DateReadsBack` | internal/icloud/recurrence.go:737-748 | A civil date inside its month, once built, reads back with the same year, month and day. |
| `Gregorian.LastDayByCarry` | internal/icloud/recurrence.go:659 | Day 0 of the next month is the last day of this month, for every month of every year, December included. |
| `Gregorian.LeapByCarry` | internal/icloud/recurrence.go:666-669 | 29 February stays in February after normalisation exactly in leap years. |
| `Gregorian.CyclePeriodic` | internal/icloud/recurrence.go:392-395 | Year, day of year, month, day of month and weekday all repeat after any multiple of 146097 days. |
| `CyclicGap.GreatestCommonDivisor` | internal/icloud/recurrence.go:334-342 | The loop computes the gcd, which `GcdDivides` and `GcdGreatest` characterise. |
| `CyclicGap.GcdDivides` | internal/icloud/recurrence.go:334-342 | The gcd divides both arguments. |
| `CyclicGap.GcdGreatest` | internal/icloud/recurrence.go:334-342 | Every common divisor divides the gcd. |
| `CyclicGap.ResiduePhase` | internal/icloud/recurrence.go:456-473 | After base/gcd steps of the interval the phase repeats: step n and its residue differ by whole bases. |
| `CyclicGap.MaximumCyclicEmptyPeriods` | internal/icloud/recurrence.go:750-773 | Reachable exactly when some state is set; otherwise the length; and then the longest run of misses over two turns, never a full turn. |
| `CyclicGap.ScanIsExact` | internal/icloud/recurrence.go:750-773 | If the table tabulates an infinite signal, no set state means the signal never fires, and the scanned gap is its longest empty run for all time. |
| `CyclicGap.LongestGapUnique` | internal/icloud/recurrence.go:750-773 | A signal has at most one longest gap, so the specification determines the result. |
| `RecurrenceRules.BySetPosCanSelect` | internal/icloud/recurrence.go:618-631 | True exactly when there are candidates and BYSETPOS is absent or some position, from either end, falls inside them. |
| `RecurrenceRules.Contains` | internal/icloud/recurrence.go:344-347 | On ascending lists the binary search decides membership. |
| `RecurrenceRules.Deduplicate` | internal/icloud/recurrence.go:357-368 | No repeats, same members. |
| `RecurrenceRules.NormalizeList` | internal/icloud/recurrence.go:357-367 | Strictly ascending with the same members. |
| `RecurrenceRules.NormalizeSelectorLists` | internal/icloud/recurrence.go:349-380 | Every list is ascending and selects the same values, nothing else changes, and the verdict is the bound on times per date. |
| `RecurrenceRules.SaturatingMultiply` | internal/icloud/recurrence.go:854-862 | The exact product up to the limit, limit plus one above it, and zero when a factor is not positive. |
| `ClockSelectors.FillClockTable` | internal/icloud/recurrence.go:309-326 | Table entry j is the match of the value reached after j steps; each step costs one unit of both budgets; it stops early only on cancellation or a budget below the number of states. |
| `ClockSelectors.ClockSelectorSafety` | internal/icloud/recurrence.go:238-332 | Safe returns the longest run of non-matching steps of the infinite orbit of full times of day; unreachable means no step ever matches; excessive means a budget below the cycle. |
| `ClockSelectors.ReducedCycleAgrees` | internal/icloud/recurrence.go:262-304 | Matching a full time of day equals matching its remainder modulo the reduced cycle of 60, 3600, 1440 or 86400. |
| `ClockSelectors.SameOrbit` | internal/icloud/recurrence.go:309-326 | The full time of day after n steps and the scanned value agree modulo the cycle. |
| `ClockSelectors.ScanTabulates` | internal/icloud/recurrence.go:309-326 | The scanned table read cyclically is the match state of every step there will ever be. |
| `DateSelectors.MatchWeekdays` | internal/icloud/recurrence.go:680-697 | The one-pass flags decide: plain selectors absent or one on this weekday, and ordinal selectors absent or one with this ordinal from either end. |
| `DateSelectors.MatchDate` | internal/icloud/recurrence.go:655-698 | The early exits, with month and year lengths found by carrying dates, decide the closed-form conjunction of all date selectors. |
| `DateSelectors.DefaultsMean` | internal/icloud/recurrence.go:559-579 | Without date selectors but BYMONTH, a date matches exactly when it shares DTSTART's month and day (yearly), day (monthly) or weekday (weekly), BYMONTH taking the place of the month. |
| `DateSelectors.WeekStart` | internal/icloud/recurrence.go:742-748 | The week start is within the seven days up to the date and falls on the configured weekday. |
| `DateSelectors.WeekYearByFourthDay` | internal/icloud/recurrence.go:710-722 | The week-numbering year chosen by comparing first-week starts is the year of the week's fourth day. |
| `DateSelectors.WeekNumberRange` | internal/icloud/recurrence.go:710-727 | Week numbers lie in 1 to 53 and from the back in -53 to -1, and both locate the same week start. |
| `DateSelectors.WeekNumberPeriodic` | internal/icloud/recurrence.go:710-740 | Week numbers from both ends repeat every 400 years. |
| `DateSelectors.DateMatchesPeriodic` | internal/icloud/recurrence.go:655-727 | A day matches the selectors exactly when the day any multiple of 400 years away does. |
| `DateSelectors.WeekdayOnlyPeriodic` | internal/icloud/recurrence.go:468-473 | Rules with nothing but plain weekdays repeat every seven days. |
| `DateSelectors.PhasePeriodic` | internal/icloud/recurrence.go:456-473 | Periods a whole number of bases apart (400 years, 4800 months, 20871 weeks, 146097 or 7 days) have equally many matching days. |
| `DateSelectors.PeriodResidue` | internal/icloud/recurrence.go:456-520 | The match count of period n equals that of n modulo the reduced cycle, for every n. |
| `SelectorSafety.PeriodSteps` | internal/icloud/recurrence.go:510-519 | Stepping by date arithmetic follows the closed form of period starts and ends. |
| `SelectorSafety.MatchingDatesInPeriod` | internal/icloud/recurrence.go:633-653 | Succeeds exactly when the budget covers the period's days, then counts its matching days and charges one unit per day. |
| `SelectorSafety.FillDateTable` | internal/icloud/recurrence.go:480-520 | The table holds whether each period of the cycle can fire and the largest work of a period; a whole scan charges exactly its days, and it stops early only on cancellation, a budget below those days or a period above the work limit. |
| `SelectorSafety.WholeScanBound` | internal/icloud/recurrence.go:456-478 | A whole scan visits at most 148800 days, and at most 7 for a daily rule with nothing but weekdays. |
| `SelectorSafety.DateScanExact` | internal/icloud/recurrence.go:456-520 | One scanned cycle tabulates all periods, and its largest work is the largest of all time. |
| `SelectorSafety.DateSelectorSafety` | internal/icloud/recurrence.go:456-530 | Safe returns the true longest gap and the true largest period work; unreachable means no period ever fires; both charge exactly the days of one cycle, and excessive means a budget below them, a period above the work limit or a gap of the limit. |
| `SelectorSafety.DefaultsAlwaysMatch` | internal/icloud/recurrence.go:439-454 | Without date selectors, and off 29 February and month days above 28, every period has exactly one matching day. |
| `SelectorSafety.SelectorSafetyCheck` | internal/icloud/recurrence.go:396-530 | Every answer is exact for all time: safe gives the longest gap, unreachable means never; unsupported and excessive each have their cause, the budgets measured against the rule's own scan; what a settled rule charges is stated. |
| `RuleMeaning.EpochIsThursday` | internal/icloud/recurrence.go:680 | Day 0 is 1 January of year 1, and 1 January 1970 is a Thursday. |
| `RuleMeaning.MonthLengths` | internal/icloud/recurrence.go:659-669 | Every month has its length, February by the Gregorian leap rule. |
| `RuleMeaning.OrdinalMeans` | internal/icloud/recurrence.go:700-708 | A non-zero ordinal is one of the two computed ones exactly when that many days of the weekday lie from the first day of the span to the date, or from the date to the last; the span is the year for a yearly rule without BYMONTH, else the month. |
| `RuleMeaning.OneOrdinal` | internal/icloud/recurrence.go:680-708 | A rule of one ordinal weekday matches exactly the selected months' n-th such weekday, counted as a set of days, from either end. |
| `RuleMeaning.WeeksCounted` | internal/icloud/recurrence.go:710-727 | Week numbers count the week starts whose fourth day lies in the year, from either end. |
| `RuleMeaning.DateMatchesMeans` | internal/icloud/recurrence.go:655-698 | For a normalised rule a date matches exactly when month, month day, year day, week and weekday selectors allow it, each said with dates, membership and counted sets. |
| `RuleMeaning.PeriodHolds` | internal/icloud/recurrence.go:456-478 | Period n is the year, month, week or day that many intervals after the one of DTSTART. |
| `RuleMeaning.CountIsCardinality` | internal/icloud/recurrence.go:643-651 | The counted matches are the number of matching days of the period. |
| `RuleMeaning.TimesAreCombinations` | internal/icloud/recurrence.go:581-616 | Times per date and per period are the numbers of combinations of the hours, minutes and seconds to choose from. |
| `RuleMeaning.WorkMeans` | internal/icloud/recurrence.go:495-503 | A period's work is its candidates, capped by COUNT, or with BYSETPOS the largest of three bounds. |
| `RuleMeaning.SetPosMeans` | internal/icloud/recurrence.go:618-631 | BYSETPOS can select exactly when some candidate is the p-th from the front or from the back. |
| `RuleMeaning.ClockFiresMeans` | internal/icloud/recurrence.go:238-304 | Step n of a sub-daily rule fires exactly when the hour, minute and second of its instant pass the selectors down to the rule's unit. |
| `OccurrenceExpansion.GuardWidens` | internal/icloud/recurrence.go:133-142 | The overflow guard is the only way the lower bound fails to widen enough. |
| `OccurrenceExpansion.ParseableExact` | internal/icloud/ical.go:958-965 | A zone drifting at most a day gives the master its own end exactly when that end is within a day of the elapsed count. |
| `OccurrenceExpansion.LowerBoundExact` | internal/icloud/recurrence.go:126-143 | For every master that a zone can give: no visible occurrence of any rule from its start, in any zone that gives its end, lies before the bound, exactly when the bound reaches back a full day of drift. |
| `OccurrenceExpansion.ShowsEverythingExact` | internal/icloud/recurrence.go:126-225 | Every specified row is shown, for all rules, overrides, zones and windows, exactly under that condition. |
| `OccurrenceExpansion.ShownIsComplete` | internal/icloud/recurrence.go:126-225 | With a bound wide enough the shown rows are the specified rows. |
| `OccurrenceExpansion.BoundMayLose` | internal/icloud/recurrence.go:133-143 | A yearly event of 106751 nominal days with its own parsed end, an hour of drift on its second occurrence, and a window: a specified row that expansion does not show. |
| `OccurrenceExpansion.CollectStarts` | internal/icloud/recurrence.go:144-176 | Collects only, and when not truncated all, rule starts that pass the bound, EXDATE and overlap, ascending; truncation and both failures happen only for their stated cause; every advance is charged to both budgets. |
| `OccurrenceExpansion.LoopFilters` | internal/icloud/recurrence.go:158-169 | The filters of the loop are exactly what makes a rule start visible and reached by the bound. |
| `OccurrenceExpansion.MapOverrides` | internal/icloud/recurrence.go:178-184 | The map by UTC second in which a later override wins and none is shown as a master. |
| `OccurrenceExpansion.OverrideMapMeans` | internal/icloud/recurrence.go:178-184 | A second maps to an event exactly when it is the last override of that second, without a rule and marked as an override. |
| `OccurrenceExpansion.ShownRowMeans` | internal/icloud/recurrence.go:187-225 | A row overlaps the window by its own start and end and is either the last override of its second as itself, or starts at a rule instant that the bound reaches and neither EXDATE nor an override holds, ends after the master's own length or nominal days, and carries the master's details. |
| `OccurrenceExpansion.RowsForStarts` | internal/icloud/recurrence.go:185-214 | The rows of the starts in order, and the set of override keys they used. |
| `OccurrenceExpansion.StartRowsMembers` | internal/icloud/recurrence.go:188-214 | A row is present exactly when some start yields it, and no two rows share a UTC second. |
| `OccurrenceExpansion.AddUnusedOverrides` | internal/icloud/recurrence.go:216-225 | Adds exactly the overlapping overrides whose slot was not used, in any order, without repeats. |
| `OccurrenceExpansion.RowsAreExact` | internal/icloud/recurrence.go:185-225 | The gathered rows are exactly the shown ones. |
| `OccurrenceExpansion.OrderedRows` | internal/icloud/recurrence.go:187-230 | Rows of rule slots come first in ascending order, then overrides without a slot among them, also after the cut at the cap. |
| `OccurrenceExpansion.ExpandOccurrences` | internal/icloud/recurrence.go:45-233 | Every row is a shown row, and an untruncated result has every shown row once: each overlapping override, and one row per visible rule start that the bound reaches and no override replaces; rule slots come first, ascending; truncation means more starts or rows than the cap really exist; each failure has its cause. |
| `DeleteOccurrence.FindExcluded` | internal/icloud/client.go:774-791 | Decides whether some readable EXDATE already holds the instant's second. |
| `DeleteOccurrence.KeepOthers` | internal/icloud/client.go:792-807 | Keeps everything but the overrides of the instant's second, in order, and reports whether one was removed. |
| `DeleteOccurrence.CalendarObject.Delete` | internal/icloud/client.go:769-832 | One delete performs the specified step on the fetched copy; no change leaves it alone; a stored result is the new copy. |
| `DeleteOccurrence.DeleteMeans` | internal/icloud/client.go:774-831 | Exactly when a delete does nothing and when it stores; what it stores has the next SEQUENCE, the written EXDATE if it was missing, and the kept children. |
| `DeleteOccurrence.KeptIsFilter` | internal/icloud/client.go:792-807 | The kept children are all but the overrides of that second, in order. |
| `DeleteOccurrence.OverridesMean` | internal/icloud/ical.go:870-909 | The overrides of an object are the events of its children with a RECURRENCE-ID. |
| `DeleteOccurrence.MasterMeans` | internal/icloud/ical.go:369-385 | The master is an event child without a RECURRENCE-ID, found whenever there is one. |
| `DeleteOccurrence.DeleteThenExpand` | internal/icloud/client.go:769-832 | For every rule, zone, window and row: after a stored delete the rows are the former rows minus those of the deleted second. |
| `DeleteOccurrence.SecondDeleteIsNoOp` | internal/icloud/client.go:774-817 | Deleting the same instant again changes nothing. |
| `DeleteOccurrence.NoChangeMeansGone` | internal/icloud/client.go:808-810 | When a delete reports nothing to do, the instant indeed had no row in any window. |
| `FreeSlots.BusyFromEvents` | internal/icloud/freeslots.go:47-73 | Exactly the counting events block time, each for its buffered interval, and none is empty. |
| `FreeSlots.BookedMeans` | internal/icloud/freeslots.go:47-73 | An instant is booked exactly when an event that is not ignored, and not an unwanted all-day one, holds it with its buffers. |
| `FreeSlots.MergeIntervals` | internal/icloud/freeslots.go:80-105 | Covers the same instants, ascending with a real gap between neighbours, for every input. |
| `FreeSlots.InvertBusy` | internal/icloud/freeslots.go:163-192 | Covers exactly the range minus the busy instants; no empty interval; disjoint when the busy ones are well formed. |
| `FreeSlots.ClipWindow` | internal/icloud/freeslots.go:213-251 | The day walk ends and covers exactly the window's allowed instants, overnight shifts of the previous civil day included. |
| `FreeSlots.AllowedMeans` | internal/icloud/freeslots.go:205-243 | An instant is allowed exactly when some selected civil day's hours hold it, on the zone alone: the whole day, from one wall-clock minute to another, or overnight to the wall clock of the next day. |
| `FreeSlots.ClipWorkingHours` | internal/icloud/freeslots.go:194-254 | Covers exactly the free and allowed instants, sorted and separated. |
| `FreeSlots.Intersect` | internal/icloud/freeslots.go:291-301 | Holds exactly the instants both intervals hold. |
| `FreeSlots.PlaceSlots` | internal/icloud/freeslots.go:143-160 | Slots of the exact duration inside windows, ascending, at most the limit; below it, every placement starts inside a placed slot. |
| `FreeSlots.RunStaysInside` | internal/icloud/freeslots.go:143-160 | A run of covered instants cannot cross the gap between separated windows. |
| `FreeSlots.FindFreeSlots` | internal/icloud/freeslots.go:111-161 | Invalid exactly for unacceptable options; otherwise slots are sound, ordered, capped and maximal. |
| `FreeSlots.FreeSlotsForEvents` | internal/icloud/freeslots.go:44-161 | The same guarantee stated against the events themselves and their buffers. |
| `UpdateIdempotency.IdempotencyStore.PurgeLocked` | internal/mcptools/idempotency.go:182-189 | Removes exactly the completed entries whose expiry has passed. |
| `UpdateIdempotency.IdempotencyStore.BeginLocked` | internal/mcptools/idempotency.go:81-147 | One claim attempt takes the specified atomic step: reject, conflict, hit, wait or grant. |
| `UpdateIdempotency.IdempotencyStore.CompleteLocked` | internal/mcptools/idempotency.go:151-180 | One completion takes the specified atomic step on a pending entry of the same hash, else nothing. |
| `UpdateIdempotency.BeginAnswers` | internal/mcptools/idempotency.go:94-145 | A well-formed attempt conflicts, waits or hits on a claim that is pending, kept or not yet expired; otherwise it is granted while fewer than 1024 such claims stand. |
| `UpdateIdempotency.BeginRejects` | internal/mcptools/idempotency.go:85-93 | A malformed or cancelled attempt changes nothing. |
| `UpdateIdempotency.CompletionMeans` | internal/mcptools/idempotency.go:155-179 | A report of one non-empty payload up to 256 KiB is recorded, for 15 minutes unless retained; anything else is kept for good as unknown. |
| `UpdateIdempotency.StepKeepsInv` | internal/mcptools/idempotency.go:81-189 | Begin, wake, cancel and complete keep the invariant and never change a completed entry. |
| `UpdateIdempotency.RunInv` | internal/mcptools/idempotency.go:81-189 | The invariant holds in every state of every run. |
| `UpdateIdempotency.RunFrozen` | internal/mcptools/idempotency.go:149-180 | A completed entry never changes again in a run. |
| `UpdateIdempotency.CompletionHasOwner` | internal/mcptools/update_event.go:252-286 | Every completed entry records the report of exactly its owner's completion. |
| `UpdateIdempotency.GrantsAreSeparated` | internal/mcptools/idempotency.go:14-22 | Two grants of one key are separated by a known-outcome completion and at least 15 minutes of store clock. |
| `UpdateIdempotency.UncertainNeverRegranted` | internal/mcptools/idempotency.go:149-180 | A key whose outcome was retained or could not be recorded is never granted again. |
| `UpdateIdempotency.HitsDeliverOwnersOutcome` | internal/mcptools/idempotency.go:94-125 | Every hit, even after a purge, delivers what the owner recorded for the same key and hash. |
| `UpdateIdempotency.StoreIsSafe` | internal/mcptools/idempotency.go:81-180 | At most 1024 entries, every channel closed at most once, and every waiter's entry is owned or already closed. |
| `SendFingerprint.WriteAllInjective` | internal/mail/send_idempotency.go:49-54 | A list of values is recovered from its length-prefixed stream. |
| `SendFingerprint.RuneInjective` | internal/mail/send_idempotency.go:56-57 | Group sizes below the surrogate range have distinct encodings. |
| `SendFingerprint.RuneIsUtf8` | internal/mail/send_idempotency.go:57 | A group size is written as its UTF-8 form, or as the replacement character where it has none. |
| `SendFingerprint.EncodeInjective` | internal/mail/send_idempotency.go:47-71 | Equal encodings before hashing mean equal sender, recipient groups, subject, body and reply headers. |
| `SendIdempotency.SendCache.ClaimLocked` | internal/mail/send_idempotency.go:76-100 | One claim takes the specified atomic step: own, wait, mismatch or full. |
| `SendIdempotency.SendCache.CompleteLocked` | internal/mail/send_idempotency.go:102-111 | Completion records the answer, closes the channel and touches no other claim. |
| `SendIdempotency.ClaimAnswers` | internal/mail/send_idempotency.go:76-100 | A key not yet dispatched is dispatched while fewer than 128 are; a dispatched one waits for its owner if the content is the same and is refused otherwise. |
| `SendIdempotency.AnsweredWaiterWakes` | internal/mail/send_idempotency.go:85-90 | A waiter whose owner has reported can wake and gets that answer. |
| `SendIdempotency.StepKeepsInv` | internal/mail/send_idempotency.go:76-111 | Every step of every caller keeps the invariant. |
| `SendIdempotency.DispatchedOnce` | internal/mail/smtp.go:245-259 | No key is dispatched twice in the life of the process. |
| `SendIdempotency.DuplicatesGetOwnersAnswer` | internal/mail/send_idempotency.go:80-91 | Every duplicate caller gets exactly what the owner of the same key and fingerprint reported. |
| `SendIdempotency.CacheIsSafe` | internal/mail/send_idempotency.go:92-111 | At most 128 keys, every channel closed at most once, and no waiter without an owner or an answer. |
| `Discovery.CalendarClient.EnterLocked` | internal/icloud/discovery.go:52-70 | The calendar client's first critical section takes the shared step. |
| `Discovery.CalendarClient.FinishLocked` | internal/icloud/discovery.go:73-82 | The calendar client's second critical section publishes, frees the flight and closes its channel. |
| `Discovery.ContactsClient.EnterLocked` | internal/contacts/discovery.go:24-40 | The contacts client's first critical section takes the same step in its own fields. |
| `Discovery.ContactsClient.FinishLocked` | internal/contacts/discovery.go:46-53 | The contacts client's second critical section takes the same step in its own fields. |
| `Discovery.StepKeepsInv` | internal/icloud/discovery.go:50-84 | Every step, a panic included, keeps the invariant, and a published result is not replaced. |
| `Discovery.SingleFlight` | internal/icloud/discovery.go:50-84 | In every reachable state at most one caller runs discovery, and success is returned only when a result is published. |
| `Discovery.PublishedIsStable` | internal/icloud/discovery.go:73-78 | Once published, every later state shows the same result. |
| `Discovery.StepPublishes` | internal/icloud/discovery.go:72-82 | Only the end of an attempt with a result publishes, and it publishes that result; every end frees the flight. |
| `Discovery.LockAnswers` | internal/icloud/discovery.go:51-70 | A caller with the lock returns if a result is published, waits if an attempt is in flight, and starts one otherwise. |
| `Discovery.PublishedHasOwner` | internal/contacts/discovery.go:42-53 | Whatever a run publishes is the result of one of its attempts. |
| `Discovery.WaitersAreOwned` | internal/contacts/discovery.go:29-37 | A blocked caller can wake now or a running caller holds its channel, exactly when the channel is closed or no attempt has panicked. |
| `Discovery.AttendedExact` | internal/icloud/discovery.go:67-82 | The attempt in flight has a running caller exactly as long as no attempt has panicked. |
| `Discovery.PanicStrands` | internal/icloud/discovery.go:72-81 | After a panic the flight is never freed: no later state publishes and no caller runs again. |
| `Discovery.PanicLosesWakeUp` | internal/contacts/discovery.go:42-52 | A run of two callers in which the second waits for good on an attempt that panicked. |
| `Discovery.EndWakesWaiters` | internal/contacts/discovery.go:46-53 | The end of the attempt enables every caller blocked on it. |
| `MailPaging.ExpandUidSet` | internal/mail/imapadapter/session.go:215-249 | Accepts exactly the well-formed sets inside the window within the count, and lists their members ascending. |
| `MailPaging.ListMembers` | internal/mail/imapadapter/session.go:242-248 | Ascending, of the set's cardinality, and exactly its members. |
| `MailPaging.ScanWindows` | internal/mail/service.go:333-370 | Finds exactly the matches above the reached boundary, stops only at UID 0, at the scan limit or beyond the page limit, and fails only on answers outside the window. |
| `MailPaging.TrimToFit` | internal/mail/service.go:389-394 | A prefix that fits, cut no further than needed; emptied only if not even one summary fits. |
| `MailPaging.DescendingPrefix` | internal/mail/service.go:395-398 | Cutting the matches after the k-th one leaves exactly those down to that UID, so its UID is the right cursor. |
| `MailPaging.PageIsExact` | internal/mail/service.go:372-407 | Whichever branch sets the cursor, the page lists exactly the matches between its own cursor and the next, or dropped all it found. |
| `MailPaging.SearchMessages` | internal/mail/service.go:312-408 | Fails exactly on a bad limit or a changed UIDVALIDITY; otherwise the cursor strictly falls and the page is exact unless it dropped all it found; the scan limit is reported exactly when it is met, a truncated page leaves a match out, and a short page has its cause. |
| `MailPaging.CollectPages` | internal/mail/service.go:312-408 | Following the cursor ends, and collects exactly the matching UIDs, newest first, if every matching summary fits a page on its own under all flags; conversely each collected summary fits alone under its page's flags; so if and only if, wherever the flags do not decide a single summary. |
| `MailPaging.SummedHoldsSingles` | internal/mail/service.go:304-310 | When a page's size is its envelope plus a weight per summary, a page that fits holds only summaries that fit alone. |
| `MailPaging.OversizedSummaryIsDropped` | internal/mail/service.go:389-401 | One message whose summary exceeds the byte limit: every page the search can return for that mailbox drops it. |
| `ImapMove.Classify` | internal/mail/imapadapter/session.go:748-784 | An error is ambiguous exactly when the command may have run and no tagged refusal came. |
| `ImapMove.MapError` | internal/mail/service.go:218-273 | Outcome unknown exactly for ambiguous errors of mutations; never a partial failure. |
| `ImapMove.RefusalsAreNamed` | internal/mail/imapadapter/session.go:755-775 | Each tagged refusal reaches the caller as its own code through both classifications. |
| `ImapMove.UnknownMeansUndetermined` | internal/mail/mutation.go:248-254 | A failed command of the move reports an unknown outcome exactly when a server that ran it and one that did not could both have sent the reply; otherwise it did not run. |
| `ImapMove.ScalarUid` | internal/mail/imapadapter/session.go:672-682 | Accepts only a set of one range with one non-zero UID. |
| `ImapMove.ValidatedCopyData` | internal/mail/imapadapter/session.go:654-670 | Accepted COPYUID data names exactly the requested message; absent data only where not required. |
| `ImapMove.Server.Execute` | internal/mail/imapadapter/session.go:629-695 | A completed command took effect, a refused one did not, a lost reply says nothing. |
| `ImapMove.MoveWithSession` | internal/mail/mutation.go:198-246 | In every run: never lost after any command, an expunge only after a validated COPY and an acknowledged store, success means moved with the server's UIDs, a definite error means nothing changed, a partial failure leaves both copies, and usable replies throughout mean success. |
| `ImapMove.MoveMessage` | internal/mail/service.go:187-208 | The wrapped mutation keeps all those guarantees, and a dial or login failure sends no command. |
| `RawProperty.DelimiterOutsideQuotes` | internal/contacts/vcard.go:177-197 | The scan with its index skips finds the first delimiter outside quotes and tells unbalanced quotes from a missing delimiter. |
| `RawProperty.SplitOutsideQuotes` | internal/contacts/vcard.go:199-222 | Succeeds exactly on balanced quotes and cuts at every delimiter outside them. |
| `RawProperty.JoinSplit` | internal/contacts/vcard.go:199-222 | Joining the pieces gives the text back. |
| `RawProperty.SplitOfJoined` | internal/contacts/vcard.go:199-222 | Splitting undoes joining pieces that hide the delimiter in quotes or do not hold it. |
| `RawProperty.ParseRawProperty` | internal/contacts/vcard.go:140-175 | The loops compute exactly the property that the logical line denotes, or refuse. |
| `RawProperty.ParseProperty` | internal/contacts/vcard.go:140-175 | The property keeps the physical bytes it was read from. |
| `RawProperty.PropertyReadsBack` | internal/contacts/vcard.go:140-175 | A written property, with any group, parameters and value, reads back as itself with its name in upper case. |
| `RawProperty.ParameterIsValid` | internal/contacts/vcard.go:162-167 | A named parameter with an unquoted or a quoted value is well formed. |
| `RawProperty.ParameterMeans` | internal/contacts/vcard.go:162-166 | A parameter is well formed exactly when it is a token, an equals sign and balanced values, each between commas quoted as a whole or free of quotes. |
| `RawCard.ScanComplete` | internal/contacts/vcard.go:69-124 | Whatever property list the bytes denote is what the scan returns. |
| `RawCard.ScanSound` | internal/contacts/vcard.go:69-124 | What the scan returns is denoted by the bytes, and no byte is lost. |
| `RawCard.ScanExact` | internal/contacts/vcard.go:69-124 | The scan succeeds with a list exactly when the bytes denote it within the limit. |
| `RawCard.DenotesUnique` | internal/contacts/vcard.go:69-124 | A byte string denotes at most one property list. |
| `RawCard.UnfoldOfFold` | internal/contacts/vcard.go:107-119 | Unfolding undoes folding, wherever the line was broken. |
| `RawCard.FoldedPropertyDenotes` | internal/contacts/vcard.go:107-119 | A folded property line is read as the property of the unbroken line. |
| `RawCard.DenotedBytes` | internal/contacts/vcard.go:131-138 | No control byte but tab and line ends occurs in a card. |
| `RawCard.CountSeparators` | internal/contacts/vcard.go:331-348 | Counts the separators not preceded by an escaping backslash. |
| `RawCard.GatherNamed` | internal/contacts/vcard.go:271-289 | One pass refuses inner BEGIN and END and gathers the VERSION, UID, FN and N properties in order. |
| `RawCard.ValidateRawCard` | internal/contacts/vcard.go:261-329 | Decides the card rules. |
| `RawCard.ParseRawCard` | internal/contacts/vcard.go:69-129 | Accepts exactly the bytes that denote a valid property list within the limit; the properties' bytes concatenate to the input. |
| `CardPatch.PatchedNamesDistinct` | internal/contacts/vcard.go:434-458 | No patched name repeats. |
| `CardPatch.PatchedNamesExact` | internal/contacts/vcard.go:434-458 | A name is patched exactly when the patch carries its field. |
| `CardPatch.FlagDecides` | internal/contacts/vcard.go:434-458 | Each of the eleven fields decides its own name. |
| `CardPatch.SpliceKeepsUntouched` | internal/contacts/vcard.go:386-409 | Untouched properties survive byte for byte and in order. |
| `CardPatch.SpliceBlock` | internal/contacts/vcard.go:386-409 | Each patched name's replacement block stands exactly once, unbroken. |
| `CardPatch.SpliceEnds` | internal/contacts/vcard.go:386-409 | The first and the last property stay in place. |
| `CardPatch.WritePatched` | internal/contacts/vcard.go:386-409 | The bytes written are the bytes of the splice. |
| `CardPatch.EncodePatchedCard` | internal/contacts/vcard.go:369-424 | Accepted exactly when the splice fits, is a valid 3.0 card and decodes; the bytes re-parse to the splice. |
| `CardPatch.PatchIsSplice` | internal/contacts/vcard.go:369-424 | For every valid card: properties whose field the patch does not carry keep their bytes and order, each carried field's block stands once, BEGIN first and END last. |
| `RedactingWriter.RenderCut` | internal/security/redact.go:218-226 | Rendering splits at any line boundary. |
| `RedactingWriter.RenderIsLineMap` | internal/security/redact.go:169-216 | The rendering is the map over the lines, marker for oversized ones, plus one marker for an unterminated tail of 64 KiB. |
| `RedactingWriter.RecordIsPutOut` | internal/security/redact.go:185-201 | A line below 64 KiB is put out redacted with its terminator, a longer one as the marker alone. |
| `RedactingWriter.TailIsPutOut` | internal/security/redact.go:204-213 | An unterminated tail has put out nothing, or the marker once it fills the buffer. |
| `RedactingWriter.Writer.SinkIsRendering` | internal/security/redact.go:169-243 | At any moment the sink holds the rendering of all bytes written since the last flush. |
| `RedactingWriter.Writer.Write` | internal/security/redact.go:169-216 | A write appends its bytes to the stream and keeps the sink its rendering. |
| `RedactingWriter.Writer.Flush` | internal/security/redact.go:257-264 | Flush emits a shorter tail redacted, nothing for a discarded one, and starts a fresh stream. |
| `RedactingWriter.WriteChunks` | internal/security/redact.go:169-264 | Any split into writes gives the same output. |
| `GuardedConn.LiteralMeans` | internal/mail/imapadapter/guard.go:114-134 | A line announces a positive size, or one above the session limit, exactly when it ends in braces around that number, perhaps signed, perhaps non-synchronising. |
| `GuardedConn.AnnouncedPayloadPasses` | internal/mail/imapadapter/guard.go:48-51 | After a balanced prefix and an announcement of n bytes, every payload of n bytes passes, and the next byte is protocol at the depth counted from the prefix alone. |
| `GuardedConn.QuietLinePasses` | internal/mail/imapadapter/guard.go:98-111 | A line without an announcement ends with no literal pending and no quoting, its lists forgotten at depth zero. |
| `GuardedConn.QuotedStringPasses` | internal/mail/imapadapter/guard.go:65-76 | A whole quoted string, with its quotes and backslashes escaped, leaves nesting alone and ends outside quotes. |
| `GuardedConn.LiteralSize` | internal/mail/imapadapter/guard.go:114-134 | An accepted literal is never larger than the session limit. |
| `GuardedConn.FeedAppend` | internal/mail/imapadapter/guard.go:40-58 | Feeding two pieces is feeding their concatenation. |
| `GuardedConn.FeedBounded` | internal/mail/imapadapter/guard.go:9-17 | Until the first violation total, line, literal, depth, lists and quoted length stay inside their limits. |
| `GuardedConn.PayloadIsOpaque` | internal/mail/imapadapter/guard.go:48-51 | Literal payload is counted and leaves line, nesting and quoting alone. |
| `GuardedConn.PayloadDoesNotMatter` | internal/mail/imapadapter/guard.go:21-23 | Replacing a literal's payload changes nothing that follows. |
| `GuardedConn.PlainPasses` | internal/mail/imapadapter/guard.go:78-96 | Unquoted text passes exactly when every prefix keeps its parenthesis counts inside the depth and list limits, and the depth is that count. |
| `GuardedConn.QuotedIsOpaque` | internal/mail/imapadapter/guard.go:65-76 | Quoted text never nests. |
| `GuardedConn.Connection.ScanProtocolByte` | internal/mail/imapadapter/guard.go:60-112 | One protocol byte takes the specified step or violates a limit. |
| `GuardedConn.Connection.Read` | internal/mail/imapadapter/guard.go:40-58 | A read delivers exactly the bytes before the first violation. |
| `GuardedConn.ReadChunks` | internal/mail/imapadapter/guard.go:40-58 | However the stream is split, the client sees its bytes up to the first violation. |
| `ICalDuration.CheckedDuration` | internal/icloud/ical.go:1203-1214 | Refused exactly when the product exceeds 2^63-1; otherwise the exact signed product. |
| `ICalDuration.AddPart` | internal/icloud/ical.go:1159-1167 | Refused exactly when the exact sum exceeds 2^63-1; nothing wraps. |
| `ICalDuration.CountDigits` | internal/icloud/ical.go:1114-1117 | The inner loop finds the maximal run of digits. |
| `Decimal.ValueOfDigits` | internal/icloud/ical.go:1121 | Every number is the value of its numeral. |
| `Decimal.ValueBound` | internal/icloud/ical.go:1121 | A numeral of k digits is below the k-th power of ten. |
| `ICalDuration.ParseParts` | internal/icloud/ical.go:1099-1171 | The loop with its ordering flags computes the recursive reading of the parts. |
| `ICalDuration.ParseDuration` | internal/icloud/ical.go:1075-1177 | Returns a value exactly when the text denotes it. |
| `ICalDuration.ParseSound` | internal/icloud/ical.go:1075-1177 | Every accepted text is a printed duration of the grammar with that value. |
| `ICalDuration.ParseComplete` | internal/icloud/ical.go:1075-1177 | Every printed duration whose sum fits 2^63-1 is accepted with its exact value. |
| `ICalDuration.ParseExact` | internal/icloud/ical.go:1075-1177 | Accepted with v if and only if the text is sign, P, and weeks or days and ordered H, M, S parts of exact sum v that fits. |
| `ICalDuration.UnitLengths` | internal/icloud/ical.go:1128-1155 | The units in nanoseconds. |
| `ICalDuration.DatePartsWeigh` | internal/icloud/ical.go:1097-1134 | Weeks and days weigh their number times their unit. |
| `ICalDuration.ClockPartsWeigh` | internal/icloud/ical.go:1135-1155 | A lone hour, minute or second part weighs its number times its unit. |
| `ICalDuration.PartsAdd` | internal/icloud/ical.go:1159-1167 | The parts of a duration add up. |
| `ICalDuration.NominalPartsExact` | internal/icloud/ical.go:1179-1201 | The days the text names and the clock part, for every accepted duration that is not negative; nothing wraps. |
| `ICalDuration.NominalPartsOfParsed` | internal/icloud/ical.go:1179-1201 | Every accepted positive value splits: days times 24h plus the remainder is the total, and the remainder is not negative. |
| `OpaquePath.DecodeShortens` | internal/contacts/client.go:196-210 | A pass with an escape shortens the text; a pass without one leaves it alone. |
| `OpaquePath.DecodePercentEscapes` | internal/contacts/client.go:196-210 | One decoding pass, and whether the text held any escape. |
| `OpaquePath.DecodeOfEncode` | internal/contacts/client.go:196-228 | Decoding undoes writing every byte as an escape, for all byte strings. |
| `OpaquePath.FixedPoint` | internal/contacts/client.go:181-194 | Once a pass changes nothing, no later pass does. |
| `OpaquePath.UnsafeSegment` | internal/contacts/client.go:181-194 | The bounded loop decides whether any number of decodings gives a dot segment or a forbidden byte. |
| `OpaquePath.SafeMeans` | internal/contacts/client.go:181-194 | A segment is safe exactly when no number of decodings makes it a dot segment or shows a slash, a backslash, NUL, CR or LF. |
| `OpaquePath.NormalizeEscapes` | internal/contacts/client.go:159-173 | The in-place pass succeeds exactly when every percent sign starts an escape and no rejected byte occurs, and changes only the case of escape digits. |
| `OpaquePath.CanonicalOpaquePath` | internal/contacts/client.go:151-179 | Accepts exactly the rooted, well-escaped paths with safe segments and returns their canonical text. |
| `OpaquePath.AcceptableMeans` | internal/contacts/client.go:155-178 | The accepted syntax, said outright: length, one leading slash, two hexadecimal digits after every percent sign, no rejected byte, safe segments. |
| `OpaquePath.CanonicalExact` | internal/contacts/client.go:148-173 | Two paths have the same canonical text exactly when they differ in nothing but the case of escape digits. |
| `OpaquePath.CanonicalIdempotent` | internal/contacts/client.go:151-179 | A canonical path is accepted and unchanged. |
| `OpaquePath.CanonicalDecodesSame` | internal/contacts/client.go:148-150 | Canonicalization does not change what a path decodes to. |
| `OpaquePath.DecodingKeepsSegments` | internal/contacts/client.go:174-194 | However often an accepted path is decoded, its segments are the decoded segments, none a dot segment and none with a forbidden byte. |
| `OpaquePath.PrefixBySegments` | internal/contacts/client.go:141-146 | A textual prefix up to a slash is exactly a proper prefix by segments. |
| `OpaquePath.UrlWithin` | internal/contacts/client.go:120-146 | Decides containment: same scheme, host and effective port, both paths acceptable, equal if allowed or below. |
| `OpaquePath.BaseSegments` | internal/contacts/client.go:141-142 | Containment compares the canonical segments without the empty one after a final slash. |
| `OpaquePath.DefaultPort` | internal/contacts/client.go:124-131 | An absent port is port 443. |
| `OpaquePath.WithinTransitive` | internal/contacts/client.go:120-146 | Containment is transitive, and strict as soon as one step is. |
| `OpaquePath.StrictlyWithinIsStrict` | internal/contacts/client.go:120-146 | Strict containment is never mutual, not even with equality allowed. |
| `OpaquePath.WithinBySegments` | internal/contacts/client.go:120-146 | Strict containment is exactly a proper prefix by segments on one authority. |
| `OpaquePath.WithinSurvivesDecoding` | internal/contacts/client.go:120-194 | After any number of decodings the child's segments still extend the collection's. |

## Left out

- Transports and libraries: HTTP, IMAP, SMTP, TLS, XML, JSON and the rrule, iCalendar, vCard and IMAP packages appear only as abstract functions or nondeterministic servers.
- MCP tool schemas, argument parsing, configuration, permissions, rate limiters, audit and health output: wide but shallow.
- The search over many calendars that shares one work budget, the RRULE text parser, the work estimate before iteration and the field and object validators (validateCalendarObjectIdentity among them): they would add easy members only.
- ExpandOccurrences: the rule iterator is an arbitrary ascending sequence of whole-second instants; parsing, the selector preflight, the work estimate and field validation happen before the modelled part; rows are compared as a set without repeats, since the source iterates a map.
- ShownIsComplete: assumes that adding nominal days drifts at most 24 hours; a zone is any such function that gives the master the end it was parsed with.
- DeleteThenExpand: assumes that the written EXDATE reads back as the same UTC second and that the object's RECURRENCE-ID values parse; the conditional PUT and its retries are not modelled.
- DeleteOccurrence.CalendarObject.Delete: DTSTAMP is not modelled, and SEQUENCE is the integer the property reads back as.
- Dates and zones: civil dates are proleptic Gregorian day numbers; the date scans step over days, not over local midnights of a zone.
- FindFreeSlots: the zone is abstract; midnights ascend, an instant's civil day holds it, and a day's wall clock stays inside the day. Zones whose clock change skips midnight need not satisfy this.
- SelectorSafetyCheck: nil options and nil contexts are not modelled, and the two budgets are values handed in and out instead of pointers.
- UpdateIdempotency.StepKeepsInv: store clocks are assumed not to run backwards; the 15-minute timeout of a waiter is an abandonment, and an owner that panics is a completion with no result.
- SendIdempotency.StepKeepsInv: the owner's send always ends in a report, as the source's recovery arranges.
- EncodeInjective: the hash itself is not modelled; recipients are already trimmed and lowercased, groups hold fewer than 55296 addresses and values are shorter than 2^32 bytes (the source accepts at most 50 recipients).
- SearchMessages: the mailbox is fixed during the paging, metadata is returned for every requested UID, and only the limit and UIDVALIDITY checks of the input are modelled; concurrent expunge is left out.
- CollectPages: the size of a page is an arbitrary function; the equivalence assumes that pages hold only summaries that fit alone and that no single summary lies within the bytes of the two page flags.
- MoveWithSession: one message; a tagged refusal means that the command had no effect, and mailbox name checks, timeouts and session setup happen before it.
- ParseRawCard: bytes are characters, and which values trim to nothing is an abstract predicate.
- EncodePatchedCard: the vCard decoder is an opaque extra verdict, and the canonical encoding of the patched fields is an arbitrary list of well-formed properties.
- Writer.Write: sink errors and short writes are not modelled; the redaction is an arbitrary string function. The capped error writer is left out because its result depends on write sizes.
- Connection.Read: errors of the underlying connection are not modelled.
- ParseDuration: text is a sequence of code points, so invalid UTF-8 is not distinguished; it is refused either way.
- CanonicalOpaquePath: bytes are characters, and the escaped path is an input, since building it is the URL library's work; nil URLs are not modelled.
