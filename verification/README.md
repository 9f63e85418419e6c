# Verified models of the kernel's coordination logic

This project models the parts of the kernel whose promises are about all inputs,
all runs or all interleavings, and proves them in Dafny 4.11.

| module | what it models |
|---|---|
| `Calendar`, `Cron`, `CronParser`, `CronGrammar`, `Trigger`, `Horizon` | five-field schedules in a fixed-offset location: parsing, the jumping search, the minimum gap, the next run of a trigger and what it means that there is none |
| `CacheRegistry`, `EpochToken`, `Freshness` | the cache-coherence registry: epochs, ordered invalidators, watchers, tokens, and the protocol with fills and consumers as a step system |
| `StrictJson`, `JsonKeys` | the one-pass scanner for duplicate keys, against the parsed tree (RFC 8259, sections 4 and 7), and what spelled keys say (RFC 3629, section 3) |
| `ContractSchema` | the recursive contract validator and additive schema evolution |
| `Resolver` | provider selection by tier, status and rank |
| `RateLimiter` | the token bucket with its periodic sweep |
| `Lifecycle`, `Scheduler`, `Slots` | automation rows under commands, agent edits, ticks and finishing runs, and the slots they claim |
| `Events`, `Runs` | event ingestion with its cooldown; attempts of a slot, their deliveries and the job that makes them |
| `Wrappers`, `Text`, `Sorting` | shared types, string helpers, stable sorting |

`dafny verify dfyconfig.toml` checks everything. Methods follow the loops and in-place
updates of the source and are tied to specification functions; the promises are lemmas
about those functions.

Where the code falls short of what its comments suggest, the model follows the code, a
lemma gives a concrete run, and another says exactly when the promise holds:

- `next_run_at` can stay set on a proposed row: a confirmation checks the status only and
  rewrites the version from its old snapshot (`Lifecycle.StaleConfirmLeavesSchedule`; exactly
  when: `Lifecycle.StepKeepsSchedule`).
- An agent edit can go live unconfirmed when commands or runs overlap
  (`Lifecycle.EditDuringConfirmGoesLive`, `Lifecycle.RunInFlightRevivesProposal`; exactly
  when: `Lifecycle.StepKeepsTrust`).
- Two firings can be closer than the cooldown when a finishing run writes an older clock
  reading (`Events.StaleStampBreaksCooldown`; exactly when:
  `Events.NextClaimIsSpacedIffCovered`).
- A row lists the deliveries of the last attempt that stored its output, so a third attempt
  of a slot repeats a delivery (`Runs.ThirdAttemptSendsAgain`; exactly when:
  `Runs.SentAgainIffForgotten`). The attempt budget of a job protects a slot only while
  nothing renews it (`Runs.AtMostOnceIffTwoAttempts`, `Runs.RenewalsBreakEveryBudget`).
- A slot can be claimed twice when an edit computed before the claim is written after it
  (`Slots.RacedEditClaimsTwice`; exactly when: `Slots.SlotsIncreaseIffPrompt`). The outbox
  refuses a repeated key only while its job is pending or running; a slot enqueued again is
  run again unless its run was completed or skipped (`Runs.FinishedSlotsStayFinished`).
- The slot key keeps whole seconds, so the slots of an interval below one second collide
  (`Scheduler.SubSecondSlotsCollide`, `Scheduler.SlotKeysIncrease`). Validation accepts such
  an interval only when `Policy.MinInterval` is set below one second
  (`automation/validate.go:168`); the default is 15 minutes (`automation/policy.go:56`).
- No next run does not always mean that a trigger never fires again: a schedule confined to
  29 February is lost around a century year that is not a leap year
  (`Horizon.LeapDayScheduleEnds`; exactly when: `Horizon.NeverIsForGoodIff`).
- The sum in an organization's view is not monotonic: it can come back to an old value
  although no counter wraps (`CacheRegistry.OrgViewComesBack`; exactly when:
  `CacheRegistry.OrgViewReturnsIff`).
- A token is not the only text that parses as one: blanks around it, capitals and leading
  zeros are taken too (`EpochToken.LeadingZeroParses`; exactly when:
  `EpochToken.ParsedIsTokenIff`).
- Additive evolution of inputs is not free: inputs are checked in the lax mode, where a new
  field can reject what passed untyped (`ContractSchema.NewInputFieldRejects`; exactly when:
  `ContractSchema.InputEvolvesIff`).
- The either-day rule is not Vixie cron's for a field such as `*/2`: only a bare `*` is a
  star (`CronParser.SteppedStarFiresMore`; exactly when: `CronParser.VixieRuleAgreesIff`).

## Model

| member | source | states |
|---|---|---|
| Calendar.MonthStartClosedForm | automation/cron.go:129-137 | the calendar counted month by month from 1970 is the Gregorian closed form with the 4/100/400 leap rule and the table of month starts |
| Calendar.MonthOfUnique | automation/cron.go:132-133 | a day lies in exactly one month, so the month read from an instant is the month whose first day the jump computes |
| Calendar.CivilRoundTrip | automation/cron.go:133-141 | every valid date survives the trip through its day number, whatever its year |
| Calendar.CivilIsValid | automation/cron.go:114-115 | the date of any day is valid and names that day again |
| Calendar.CivilSuccessor | automation/cron.go:137 | adding one to the day, with overflow carried, is the next date of the wall calendar, across month ends, leap days and new years |
| Calendar.GregorianCycle | automation/cron.go:114-115 | dates repeat with the same weekdays every 400 years |
| Calendar.DayNumberClosedForm | automation/cron.go:133-141 | the day number of every valid date is the closed form over its year, month and day |
| Calendar.WeekdayOfDayNumber | automation/cron.go:115 | the weekday of every valid date is the one the month table gives for its year, month and day |
| Calendar.WallMonotone | automation/cron.go:184-187 | the sortable wall-clock key orders minutes exactly as time does in a fixed-offset location |
| Cron.Next | automation/cron.go:125-160 | the loop that jumps by month, day, hour and minute terminates and returns what a minute-by-minute scan of the window returns |
| Cron.NextFireIsLeast | automation/cron.go:122-124 | the result is the least firing instant strictly after the given one inside five calendar years, and there is none exactly when that window holds no match |
| Cron.FiresAtSelectedMoments | automation/cron.go:113-160 | a schedule fires at exactly the instants at which clocks ahead of UTC by the offset show a date, hour and minute its fields select, the weekday taken from the date |
| Cron.NextIsFirstSelectedMoment | automation/cron.go:122-124 | the result is the first such instant after the given one, and there is none exactly when the window holds no such instant |
| Cron.ScanIsLeast | automation/cron.go:122-124 | the reference scan finds the least match of an interval, or proves there is none |
| Cron.SkipMonth | automation/cron.go:132-135 | jumping to the first of the next month moves forward and steps over no match |
| Cron.SkipDay | automation/cron.go:136-139 | jumping to the next midnight moves forward and steps over no match |
| Cron.SkipHour | automation/cron.go:140-147 | jumping to the next full hour moves forward and steps over no match, so the progress guard is never needed at a fixed offset |
| Cron.LaterThan | automation/cron.go:152-156 | the final check on clock and wall time never rejects a match at a fixed offset |
| Cron.WindowEnd | automation/cron.go:130 | the search window ends on the same date and time five years on, 29 February becoming 1 March |
| Cron.ImpossibleDayNeverFires | automation/cron.go:122-124 | a day no selected month has, such as 30 February, yields no result from any start |
| Cron.FiresEnumerate | automation/cron.go:162-181 | iterating Next lists firing instants in strictly increasing order and omits none up to the last |
| Cron.MinGap | automation/cron.go:165-182 | the sampling loop returns zero when nothing fires, else the least distance between neighbouring sampled fires |
| Cron.LeastStepBounds | automation/cron.go:162-164 | no two sampled fires, neighbours or not, are closer than the returned gap |
| Cron.LeastStepAttained | automation/cron.go:170-181 | the returned gap is the distance of two neighbours unless there was no pair |
| Cron.Validate | automation/validate.go:157-162 | a cron is accepted exactly when it fires and no two of the sampled fires are closer than the minimum interval |
| CronParser.CronField | automation/cron.go:66-111 | a field parses exactly when every comma-separated part does; its bits are the union of the progressions of the parts, non-empty and in range; it is a star exactly when some part is a bare star |
| CronParser.Expand | automation/cron.go:106-108 | the bit loop switches on exactly the members of the progression |
| CronParser.ParsePart | automation/cron.go:71-105 | a part that parses denotes a non-empty progression inside the field's range with a positive step |
| CronParser.ParseCron | automation/cron.go:23-61 | parsing succeeds exactly for five well-formed fields (macros expanded); the result means the fields, 7 is folded onto Sunday, every set is non-empty and in range, and a star selects the whole range |
| CronGrammar.AtoiReadsNumbers | automation/cron.go:75-99 | a number is read exactly when the text is an optional sign and a decimal numeral, leading zeros allowed, within 64 bits |
| CronGrammar.ParsePartReadsSpelling | automation/cron.go:71-105 | a part parses to a progression exactly when it spells it: a star, a number or two numbers around a dash, with an optional step that runs a single number to the end of the range |
| CronGrammar.FieldsAreTheWords | automation/cron.go:35 | words come back from an expression however they are spaced |
| CronGrammar.TrimSpaceTrims | automation/cron.go:24 | trimming removes blanks at both ends and nothing else |
| CronGrammar.MacrosMean | automation/cron.go:25-34 | every macro means the hours, days, Sundays or first of the month its name says |
| CronParser.VixieRuleAgreesIff | automation/cron.go:11-15 | the either-day rule agrees with Vixie cron's, whose flag is a leading star, on a day unless exactly one day field selects it and only one of the two rules sees a star |
| CronParser.SteppedStarFiresMore | automation/cron.go:83-86 | with `*/2` for the day and Monday for the weekday, Thursday 1 January 1970 fires here and not under Vixie's rule |
| Text.JoinSplit | automation/cron.go:70 | splitting a field at commas loses nothing |
| Trigger.NextRunIsFirst | automation/trigger.go:43-82 | the next run is strictly later than the given instant; for cron and one-shot triggers it is the first instant the trigger names |
| Trigger.InvalidIffUnreadable | automation/trigger.go:43-82 | a trigger is refused exactly when it cannot be read; an interval runs next after exactly its length, an event trigger never |
| Horizon.NeverIsForGoodIff | automation/trigger.go:40-42 | when there is no next run the trigger names no later instant, except exactly for a schedule confined to 29 February searched between its last firing before a common century year and March of the year before that year |
| Horizon.NothingFoundIff | automation/cron.go:122-124 | a parsed schedule finds nothing in its five years exactly when it selects no date of any year, or only 29 February around a common century year; it never fires again exactly in the first case |
| Horizon.EveryYearFires | automation/cron.go:125-160 | every schedule that goes by weekday or selects a date of common years finds a firing from any start |
| Horizon.LeapDayScheduleEnds | automation/scheduler.go:67-70 | the tick of 29 February 2096 clears the next run of `0 0 29 2 *` for good although it fires on 29 February 2104 |
| EpochToken.TokenRoundTrip | cachecoherence/cachecoherence.go:49-70 | parsing a token gives back the epoch it was rendered from |
| EpochToken.TokensAreInjective | cachecoherence/cachecoherence.go:49-53 | two epochs have equal tokens exactly when they are equal |
| EpochToken.FormatIsBase36 | cachecoherence/cachecoherence.go:49-53 | numbers are written in base 36 with digits 0-9 and a-z, the most significant first |
| EpochToken.ParsedIsTokenIff | cachecoherence/cachecoherence.go:55-70 | a text that parses is a token exactly when it is not surrounded by blanks and its numbers have no capitals and no leading zeros |
| EpochToken.LeadingZeroParses | cachecoherence/cachecoherence.go:55-57 | every token with a zero in front parses to the same epoch and is no token |
| CacheRegistry.BumpMovesForward | cachecoherence/cachecoherence.go:308-388 | no bump, local or remote, moves a view backwards unless it wraps an exhausted 64-bit counter, and every view it names moves unless its counter is exhausted |
| CacheRegistry.LocalBumpMovesItsScope | cachecoherence/cachecoherence.go:317-330 | a local bump changes exactly the (org, addon) views its scope names, and only the components it names |
| CacheRegistry.LocalBumpAdvancesByOne | cachecoherence/cachecoherence.go:317-330 | a local bump advances exactly the named counters by one |
| CacheRegistry.RemoteReachesAnnounced | cachecoherence/cachecoherence.go:293-296 | a peer's event advances the global and the named counters to at least the announced values, each to the greater of the announced one and the local bump's |
| CacheRegistry.ReplicaCatchesUp | cachecoherence/cachecoherence.go:331-334 | a replica that applied a peer's event is never behind what the peer published for its scope, whatever else it applies, as long as no counter wraps |
| CacheRegistry.OldEpochsNeverReturn | cachecoherence/cachecoherence.go:484-502 | over any history without a wrap a view only grows, and it differs from an earlier value exactly when some bump in between moved it |
| CacheRegistry.WrappingBringsOldEpochsBack | cachecoherence/cachecoherence.go:331-334 | the exclusion of wraps is needed: three events bring an old view back |
| CacheRegistry.MovedByItsScope | cachecoherence/cachecoherence.go:496-502 | with local bumps a watched view moved exactly when some bump named its scope or was global |
| CacheRegistry.OrgViewMoves | cachecoherence/cachecoherence.go:257-273 | the organization's view moves with exactly the bumps, local or remote, that name it, any addon or everything, or announce a later global component, save for counters held at their maximum |
| CacheRegistry.OrgViewReturnsIff | cachecoherence/cachecoherence.go:257-261 | over any history without a wrapped counter a touched view is back at its old value exactly when only addons moved and their counters together advanced by a multiple of 2^64 |
| CacheRegistry.OrgViewComesBack | cachecoherence/cachecoherence.go:270-272 | two events, neither wrapping a counter, bring the summed view back |
| CacheRegistry.RunsBeforeIsStrict | cachecoherence/cachecoherence.go:338-346 | order, then name, is a strict order of the layers |
| Sorting.LessIsDictionaryOrder | cachecoherence/cachecoherence.go:342-344 | names are compared like words in a dictionary, byte by byte |
| CacheRegistry.Registry.Register | cachecoherence/cachecoherence.go:188-201 | the named slot holds the new layer under a newer id, and a layer not known before starts up to date |
| CacheRegistry.Registry.Unregister | cachecoherence/cachecoherence.go:202-209 | removes the layer and its record only if it was not registered again since |
| CacheRegistry.Registry.Ordered | cachecoherence/cachecoherence.go:311-346 | lists every registered layer exactly once in ascending order |
| CacheRegistry.Registry.Invalidate | cachecoherence/cachecoherence.go:348-375 | every layer's record takes its outcome, failures leave the last processed bump behind, and no failure stops the rest |
| CacheRegistry.Registry.Publish | cachecoherence/cachecoherence.go:377-388 | the new epochs become visible together and the global component never moves back |
| CacheRegistry.Registry.Run | cachecoherence/cachecoherence.go:301-408 | one bump runs the layers in order, records each outcome so that exactly the layers that succeeded are up to date, publishes the next epoch and sequence number, and is the last of the registry's history |
| CacheRegistry.Registry.ViewEpoch | cachecoherence/cachecoherence.go:257-273 | the loop over the addons computes the wrapping sum of all addon counters |
| CacheRegistry.Registry.AllUpToDate | cachecoherence/cachecoherence.go:450-466 | true exactly when every registered layer processed the latest published bump without error |
| CacheRegistry.Watcher.Stale | cachecoherence/cachecoherence.go:494-502 | unless a counter wrapped, true exactly when some bump published since the last refresh moved the watched view; when those bumps were all local, exactly when one of them named its scope |
| CacheRegistry.WatcherOutlivesBumps | cachecoherence/cachecoherence.go:470-502 | however many bumps the registry publishes, a watcher still stands for the epochs of its last refresh, and they only add to what it has not seen |
| CacheRegistry.Watcher.Refresh | cachecoherence/cachecoherence.go:504-513 | marks the watcher current, so nothing has happened since, and reports whether a bump had moved its view |
| Freshness.RunKeepsInv | cachecoherence/cachecoherence.go:338-397 | the protocol invariant holds in every state of every interleaving of mutations, bumps, fills and reads |
| Freshness.FillKeepsFlight | cachecoherence/cachecoherence.go:338-346 | a fill from a strictly lower layer never dirties the layers a bump has already flushed |
| Freshness.InvokesRecordLikeRun | cachecoherence/cachecoherence.go:348-375 | stepping through the layers one at a time records exactly what the registry's run records |
| Freshness.PublishesThroughCleanLayers | cachecoherence/doc.go:31-34 | when a bump whose layers all succeeded is about to publish, every layer is empty or derived from a source that includes the mutation that caused it |
| Freshness.AllUpToDateIsFresh | cachecoherence/cachecoherence.go:349-379 | with failing layers: no bump in progress and all up to date means no layer holds anything older than any published bump's mutation |
| Freshness.CurrentTokenSawEveryBump | cachecoherence/doc.go:31-34 | a token that still equals the current epoch was read after every published bump of its scope |
| Freshness.CurrentEntriesAreFresh | cachecoherence/cachecoherence.go:504-513 | an entry whose tag, read before the data, still equals the current epoch includes the mutation of every in-scope published bump: always from the source, and for clean bumps through the layers |
| Freshness.DescendingOrderIsStale | cachecoherence/cachecoherence.go:338-346 | the ascending order is needed: top-down, an all-successful bump publishes over a stale layer |
| StrictJson.StrictJsonObject | capability/commerce.go:847-897 | the loop with its in-place stack computes the scan, with every out-of-range access and empty pop as an explicit outcome |
| StrictJson.FindClose | capability/commerce.go:876-881 | the inner loop finds the closing quote or runs off the end |
| StrictJson.CloseQuoteOfBody | capability/commerce.go:876-881 | the quote search stops exactly at the end of a valid string, escapes included |
| StrictJson.KeyOfDecodes | capability/commerce.go:883-886 | comparing raw bytes when there is no backslash compares decoded keys |
| JsonKeys.EncodeIsUtf8 | capability/commerce.go:883-886 | a decoded code point is written in its shortest UTF-8 form, read back from the bits of the bytes |
| JsonKeys.SpellingDecodes | capability/commerce.go:883-886 | decoding any spelling of code points - raw UTF-8, short escapes, four hexadecimal digits of either case, surrogate pairs, lone halves - gives their UTF-8 |
| JsonKeys.EveryBodyIsASpelling | capability/commerce.go:847-856 | every string in valid UTF-8 is such a spelling |
| JsonKeys.SameKeyIffSamePoints | capability/commerce.go:883-891 | two keys are compared as equal exactly when they spell the same code points |
| JsonKeys.RepeatsIffSamePoints | capability/commerce.go:887-891 | an object has a duplicate exactly when two of its keys spell the same code points |
| StrictJson.ScanValue | capability/commerce.go:863-895 | scanning any value of the tree returns to the same stack, or reports a duplicate exactly when the tree below has one |
| StrictJson.ScanMembers | capability/commerce.go:871-893 | scanning the members of an object collects its keys and stops at the first repeated one |
| StrictJson.FindsRepeat | capability/commerce.go:887-891 | seeing a key again from left to right is the same as two members having equal decoded keys |
| StrictJson.ScanDecidesDuplicates | capability/commerce.go:847-897 | on every JSON text: duplicate exactly when some object at some depth has two equal decoded keys; out of bounds exactly when the text is a bare string |
| StrictJson.ObjectNeverPanics | capability/commerce.go:847-897 | a text whose top level is an object stays in bounds, and its verdict does not depend on how it is parsed |
| ContractSchema.NoProblemsIffAccepted | capability/schema.go:133-158 | an object has no problem exactly when it has the shape: required fields present, typed fields fitting at every depth, no undeclared key unless open |
| ContractSchema.LeafChecks | capability/schema.go:210-262 | the checks on a value report nothing exactly for what the contract names: decimal texts, codes of two or three capitals, coordinates in range, strings in their enum and pattern; and what they report is named |
| ContractSchema.ValidDecimalIff | capability/schema.go:118-126 | a decimal text is an optional minus, digits without a superfluous leading zero, and optionally a point and digits |
| ContractSchema.ExtensionsBeginWithX | capability/schema.go:200-203 | extensions are exactly the names that begin with x_ |
| ContractSchema.ArraysOfLeaves | capability/schema.go:284-291 | an array without a shape is one whose elements fit the element type under the array's enum and pattern |
| ContractSchema.RequiredMustBePresent | capability/schema.go:187-194 | an accepted object has every required field, and not as null |
| ContractSchema.NullIsAbsent | capability/schema.go:188-189 | a null member is as good as an absent one where undeclared keys are forgiven |
| ContractSchema.LaxIsDeepOpen | capability/schema.go:143-151 | the lax mode accepts exactly what the schema accepts once it is opened at every depth |
| ContractSchema.ValidateInto | capability/schema.go:186-208 | the shared report grows by exactly the problems of the object, each with its path and as often as it occurs, so by nothing exactly when the object has the shape |
| ContractSchema.UnknownInto | capability/schema.go:200-207 | reports once exactly the keys that are neither declared nor extensions |
| ContractSchema.CheckInto | capability/schema.go:210-295 | the report grows by exactly the problems of the value, recursively, so by nothing exactly when the value fits the field |
| ContractSchema.ElementsInto | capability/schema.go:273-291 | the report grows by exactly the problems of the elements, each under its index |
| ContractSchema.Validate | capability/schema.go:133-158 | returns exactly the problems of the object, none when it is accepted; a nil schema accepts anything |
| ContractSchema.EvolutionAccepts | capability/payments_embedded.go:6-10 | what a schema accepts, every additive evolution accepts: new optional fields, relaxed required flags, grown non-empty enums, at any depth |
| ContractSchema.FieldEvolutionAccepts | capability/shipping_quote.go:7-14 | the same for a single field and its nested shapes and elements |
| ContractSchema.AddedFieldsExactly | capability/payments_embedded.go:6-10 | adding optional fields to a closed schema changes the verdict on exactly the objects that carry a new name |
| ContractSchema.InputEvolvesIff | capability/schema.go:143-151 | in the mode inputs are checked with, an additive evolution at any depth accepts a valid object exactly when the values under the names it adds fit |
| ContractSchema.AddedFieldsInLaxMode | capability/schema.go:143-151 | for fields added at the top level the verdict is the old one together with the fit of the values under the new names |
| ContractSchema.NewInputFieldRejects | capability/payments_embedded.go:6-10 | an input that passed untyped is rejected once an optional field of that name is added |
| ContractSchema.ExtensionNamesAreNotFree | capability/schema.go:200-207 | a new field named like an extension can reject what was valid |
| ContractSchema.EmptyEnumMayNotGrow | capability/schema.go:222-224 | giving an enum to a field without one can reject what was valid |
| ContractSchema.EvolvesReflexive | capability/payments_embedded.go:6-10 | every schema is an evolution of itself |
| ContractSchema.OpenSchemaAccepts | capability/payments_embedded.go:89-95 | as an instance of evolution, what is valid under a schema is valid under its opening, and what opening adds carries an undeclared top-level key |
| ContractSchema.SubmitExtendsConfirm | capability/payments_embedded.go:97-106 | for a closed confirm shape that leaves the three names free, valid confirm answers are exactly the valid submit answers without them |
| ContractSchema.ConfirmIsValidSubmit | capability/commerce.go:999-1024 | every valid answer of the confirm contract is a valid submit answer |
| Resolver.Resolve | capability/query.go:230-309 | the loops compute the specified outcome, the sorted list and the selected and eligible flags |
| Resolver.Classify | capability/query.go:236-245 | the first loop splits off the selected and the eligible providers |
| Resolver.ResolveOne | capability/query.go:275-308 | cardinality one: first non-empty tier, usable members, best rank, or the matching error with its candidates |
| Resolver.ResolveFanout | capability/query.go:253-273 | fan-out: the selection or else every eligible provider, usable ones only, or the matching error |
| Resolver.ComputeBestRanked | capability/query.go:314-334 | the two loops return the members of least rank in input order |
| Resolver.LeastRankIsLeast | capability/query.go:321-326 | the computed rank bounds every member's and belongs to one |
| Resolver.OrderDoesNotMatter | capability/query.go:231-232 | with distinct addon keys the answer does not depend on the order of the provider list |
| Resolver.SelectIffWins | capability/query.go:191-207 | a provider is chosen exactly when it is the usable member of the deciding tier with the strictly best rank |
| Resolver.WinnerByData | capability/query.go:191-207 | in terms of the providers' data: the winner is a configured candidate whose positive priority is smaller than every other configured candidate's, none counting as largest |
| Resolver.AnswersByData | capability/query.go:201-212 | no provider exactly without candidates, not configured exactly when no candidate is, and a fan-out reaches exactly the configured candidates |
| Resolver.ServesIff | capability/query.go:83-105 | a provider covers a market when they share a country whatever the case of the code, or one of them names none; it is picked when the market is among its own |
| Resolver.RankIff | capability/query.go:314-320 | a smaller positive priority outranks a larger one and any outranks none; the largest integer counts as none |
| Resolver.RemovalKeepsTheWinner | capability/query.go:194-207 | removing a provider that was not chosen never changes a cardinality-one winner |
| Resolver.ConservativeExtension | capability/query.go:205-207 | with no priority and no not-configured status the outcome is the original rule's |
| Resolver.Eligible | capability/query.go:355-376 | lists every provider with its flags and the same outcome as Select |
| Resolver.ReachedIffChosen | capability/query.go:350-352 | with distinct addon keys exactly the providers Select returns are marked as reached |
| Resolver.SelectPinned | capability/query.go:378-394 | returns the first provider of that name that serves the market, exactly when there is one, else no provider with all candidates in order |
| RateLimiter.MemoryLimiter.Allow | apitoken/ratelimit.go:42-69 | answers and changes the buckets as the specified step, sweep included |
| RateLimiter.MemoryLimiter.SweepIdle | apitoken/ratelimit.go:71-78 | the deletion loop keeps exactly the buckets touched within the last minute |
| RateLimiter.SweepingIsUnobservable | apitoken/ratelimit.go:59-62 | for every call sequence, budgets changing included, answers and waits equal those of a limiter that never deletes |
| RateLimiter.IdleIsFull | apitoken/ratelimit.go:71-78 | a bucket idle for over a minute offers what a new one offers, whatever the budget |
| RateLimiter.StepSpends | apitoken/ratelimit.go:63-66 | an admission costs its key one token and other keys nothing |
| RateLimiter.AdmittedWithinLevel | apitoken/ratelimit.go:49-66 | from any state a key's admissions are bounded by its tokens plus the refill |
| RateLimiter.WindowBound | apitoken/ratelimit.go:19-20 | with budget N at most N + N*T/60 requests of a key are admitted within any T seconds, after any history, across keys and sweeps |
| RateLimiter.RetryAfterIsExact | apitoken/ratelimit.go:12-16 | after a refusal a lone next request is admitted exactly from the announced moment on |
| RateLimiter.WholeBudgetAtOnce | apitoken/ratelimit.go:19-20 | of n requests made together for a rested key exactly the first min(n, N) are admitted |
| RateLimiter.SteadyRequestsAreAdmitted | apitoken/ratelimit.go:19-20 | requests 60/N seconds apart are all admitted, whatever other keys do |
| RateLimiter.NoBudgetNoLimit | apitoken/ratelimit.go:41-45 | a budget that is not positive never limits; a wait is announced exactly with a refusal |
| Lifecycle.StepKeepsSchedule | automation/service.go:285-307 | one statement leaves a non-active row scheduled exactly when an edit decided on a proposed or paused snapshot commits on a row that has a schedule |
| Lifecycle.ScheduledOnlyWhileActive | automation/service.go:343-350 | in every interleaving whose confirmations land on the version they loaded, next_run_at is set only while active |
| Lifecycle.StartIsScheduled | automation/service.go:216-231 | a created row satisfies the scheduling invariant |
| Lifecycle.VersionsGrow | automation/service.go:401-426 | guarded writes and current confirmations move to the next version; ticks and finishing runs keep it |
| Lifecycle.StaleConfirmLeavesSchedule | automation/service.go:347-350 | without that condition three statements reach a proposed row with next_run_at set |
| Lifecycle.StepKeepsTrust | automation/runner.go:384-410 | one statement makes an unvetted agent spec live exactly through a confirmation of another spec, a transition landing on a row that is not live, or a run finishing on one by overrunning, failing for good too often, or being a one-shot |
| Lifecycle.ActiveMeansVetted | automation/service.go:321-359 | in every interleaving of orderly confirmations and finishing runs no path makes an unvetted spec live |
| Lifecycle.StartIsTrusted | automation/service.go:216-231 | a created row is proposed, written by a person, or an auto-approved reminder |
| Lifecycle.AtomicIsOrderly | automation/service.go:401-426 | commands and runs that see the row they write are orderly |
| Lifecycle.AtomicCommandsAreSafe | automation/service.go:209-231 | with atomic commands and runs an active spec was last written or confirmed by a person or is a personal reminder, and only active rows are scheduled |
| Lifecycle.OnlyRemindersSkipConfirmation | automation/service.go:213-231 | a new row is active exactly when a person asked for it outright, or when it is a personal reminder asked for in chat under the policy that approves those; otherwise it waits unscheduled for a confirmation |
| Lifecycle.ExemptStaysReminder | automation/service.go:217-221 | in every interleaving only a personal reminder is exempt from confirmation |
| Lifecycle.ScheduleMeans | automation/service.go:222-231 | activation schedules the first run of an automation's trigger and is refused exactly for an unreadable trigger or a past one-shot |
| Lifecycle.HistoryIsTrue | automation/service.go:253-319 | the recorded author is who wrote the last edit that went through, the recorded confirmation the spec a person was shown since |
| Lifecycle.StaleWritesFail | automation/service.go:305-313 | edits and transitions decided on an older version, and confirmations of a row no longer proposed, change nothing |
| Lifecycle.CommandsFollowTheTable | automation/service.go:253-429 | a command that sees the row moves it along the table of statuses to the next version, with a fresh schedule and failure count where it becomes active, or leaves it alone |
| Lifecycle.StreakStopsAtTheLimit | automation/runner.go:398-409 | consecutive failures stop the automation with an error exactly when their number reaches the limit |
| Lifecycle.EndsOfRuns | automation/runner.go:389-409 | a success clears the failures and completes a one-shot; an overrun or permanent error stops the automation at once |
| Lifecycle.EditDuringConfirmGoesLive | automation/service.go:327-350 | an agent edit between the load and the write of a confirmation goes live unseen |
| Lifecycle.RunInFlightRevivesProposal | automation/runner.go:405-410 | a run in flight errors an agent's proposal, and resuming activates it unconfirmed |
| Scheduler.Service.Create | automation/service.go:159-244 | refuses when disabled, for an unknown caller, an invalid spec or too many rows, else stores the row the draft calls for, active only if a person asked outright or for an approved reminder; keeps the store valid |
| Scheduler.Service.Update | automation/service.go:253-319 | writes the planned edit under version and status checks and keeps the store valid |
| Scheduler.Service.Confirm | automation/service.go:321-359 | activates a proposal with its schedule, answers a double click, refuses other states |
| Scheduler.Service.Pause | automation/service.go:361-364 | an active or errored row becomes paused and unscheduled |
| Scheduler.Service.Resume | automation/service.go:366-392 | a paused or errored row becomes active with a fresh schedule and no failures |
| Scheduler.Service.ArchiveRow | automation/service.go:394-399 | any other row becomes archived and unscheduled |
| Scheduler.Service.Move | automation/service.go:401-429 | a transition from a permitted status writes status, schedule and next version; repeated ones are answered without a write |
| Scheduler.Service.FinishRun | automation/runner.go:359-414 | writes by id whatever became of the row: one-shots complete, overruns, permanent errors and the failure limit stop it; the store stays valid exactly unless that revives an unvetted spec |
| Scheduler.Service.Tick | automation/scheduler.go:29-78 | claims each due row once, enqueues its slot unless the key is live, advances it, and changes nothing when an enqueue fails |
| Scheduler.Service.Advance | automation/scheduler.go:53-70 | a claimed row gets the next future run or none; an unreadable spec becomes an error |
| Scheduler.ClaimsAreTheDueSlots | automation/scheduler.go:57-65 | a tick claims exactly the slots the readable due rows wait for and enqueues those without a live job |
| Scheduler.OneClaimPerReadableRow | automation/scheduler.go:49-66 | and counts one claim for each such row |
| Scheduler.TickLooksAhead | automation/scheduler.go:67-70 | after a tick the claimed row waits for the first later run of its trigger, strictly in the future, or for nothing when there is none; an unreadable one stops with an error |
| Scheduler.SlotsIncrease | automation/scheduler.go:33-34 | claimed slots strictly increase, none is later than its tick's clock, each lies after the clock of the tick before: a backlog collapses into one job |
| Scheduler.SlotKeysIncrease | automation/scheduler.go:58-62 | the textual slot keys strictly increase too unless the interval is below one second |
| Scheduler.SubSecondSlotsCollide | automation/scheduler.go:58 | for every interval below one second two claimed slots share a key |
| Slots.PromptSlotsIncrease | automation/scheduler.go:29-34 | in every interleaving of ticks, commands, edits and finishing runs the claimed slots strictly increase as long as no command writes a schedule it computed before the last claimed slot |
| Slots.SlotsIncreaseIffPrompt | automation/service.go:285-307 | after any run, a command that reschedules keeps the slots increasing for every spec and every later tick exactly when it read the clock no earlier than the last claimed slot |
| Slots.RacedEditClaimsTwice | automation/scheduler.go:66-73 | an edit that read the clock just before a tick and is written after it passes the version check and makes the claimed slot due again |
| Events.EventGate.IngestEvent | automation/scheduler.go:176-210 | performs the transaction of one matching event |
| Events.FiresIffOutsideTheCooldown | automation/scheduler.go:176-210 | an event fires exactly when it is not recorded and both the loaded and the present stamp are at least the cooldown old; firing stamps the row and leaves a live job |
| Events.RecordedNeverFires | automation/scheduler.go:180-196 | a recorded event never fires again, so one that lost the window is lost for good |
| Events.NoEventFiresTwice | automation/scheduler.go:180-186 | in any interleaving and on any snapshots an automation fires at most once per event |
| Events.FiringsAreSpaced | automation/scheduler.go:187-196 | firings are at least the cooldown apart when no finishing run writes a clock reading older than the last firing |
| Events.NextClaimIsSpacedIffCovered | automation/scheduler.go:187-196 | the next claim keeps the distance at every clock reading exactly when last_run_at is not behind the last firing |
| Events.StaleStampBreaksCooldown | automation/runner.go:363-410 | a run that read the clock before a firing and writes it afterwards reopens the window |
| Runs.RunTable.ExecuteSlot | automation/runner.go:157-219 | inserts or reloads the one row of a slot, runs the flow and stores how it ended |
| Runs.FlowByPosition | automation/runner.go:119-135 | every step is reached until one is not done: out goes, in order, what was undelivered before it, plus its own delivery if only the record was lost, and the end is the one its outcome names |
| Runs.FlowStopsSomewhere | automation/runner.go:119-135 | every flow has such a position, the number of steps when all of them are done |
| Runs.AttemptByPosition | automation/runner.go:157-219 | what an attempt sends and how the row ends, by that position: completed, skipped, failed, or still running after a crash; nothing for an inactive automation or a finished slot |
| Runs.SuccessDeliversEverything | automation/runner.go:786-827 | a first attempt whose steps all succeed makes every delivery in order and completes the slot |
| Runs.RunSteps | automation/runner.go:786-827 | the loop over the steps passes over delivered ones and records the others as they go out |
| Runs.FinishedSlotsStayFinished | automation/runner.go:182-184 | once completed or skipped, no later attempt executes a step or changes the row |
| Runs.NotSentAgainNext | automation/runner.go:789-826 | a delivery that went out is not sent by the next attempt unless the process died before recording it |
| Runs.TwoAttemptsSendOnce | automation/runner.go:185-189 | two attempts deliver each step at most once |
| Runs.ThirdAttemptSendsAgain | automation/runner.go:789-791 | three attempts can deliver a step twice: the stored output lists the last attempt's deliveries only |
| Runs.SentAgainIffForgotten | automation/runner.go:182-189 | after any history that sent a delivery, some next attempt can send it again exactly when the row is neither completed nor skipped and no longer lists it |
| Runs.ForgetsIffItStoresOutput | automation/runner.go:352-357 | a row loses a delivery exactly when an attempt that passed it over fails, or dies after recording another one |
| Runs.OnlyFinishedSlotsAreSafe | automation/runner.go:182-184 | every continuation sends each delivery at most once exactly from a completed or skipped row |
| Runs.AtMostOnceIffTwoAttempts | automation/service.go:121-123 | while no retry, shutdown or second enqueue renews a job's budget, every course of events delivers each step at most once exactly when the budget is at most two attempts; the default is three |
| Runs.BudgetBoundsAttempts | outbox/worker.go:315-336 | without renewals a job's attempts are bounded by its budget and are the history of the slot's row |
| Runs.RenewalsBreakEveryBudget | outbox/service.go:342-370 | with a retry of the dead job, a shutdown requeue or a second enqueue, whichever it is and whatever the budget, some course delivers a step twice |

## Left out

- Cron.Next: daylight-saving transitions, because its month and day jumps have no progress guard there; offsets are constant and in whole minutes.
- Cron.Validate: promises nothing beyond the sampled fires, as the code does.
- Freshness.RunKeepsInv: layers registered, replaced or removed while the protocol runs; lookup and fill are one step.
- CacheRegistry.Registry.Run: wall-clock fields, the recent list, diagnostic providers and subscribers; the outcome of each layer's function is an input.
- RateLimiter.MemoryLimiter.Allow: floating-point rounding and the nanosecond truncation of the wait; the clock is an input that does not run backwards in the theorems.
- StrictJson.StrictJsonObject: UTF-8 and JSON validity are answers of library validators and inputs here; a scalar is any text over the number alphabet, which includes every JSON number.
- ContractSchema.CheckInto: message texts, and so the order in which `Validate` sorts them, Go number types other than decoded JSON numbers, and compilation of patterns (the regular-expression library is a parameter).
- Resolver.Resolve: Unicode case folding beyond ASCII; labels, timeouts and opaque references of providers.
- Scheduler.Service.Create: tool names, permissions and audit records; validation of a spec, the caller's identity and the count of their rows are inputs.
- Scheduler.Service.Tick: which due rows the query returns is an input (skipped locks, order and batch size); the time zone database is an offset.
- Scheduler.Service.FinishRun: run counters, costs and texts.
- Events.EventGate.IngestEvent: matching of names and conditions, and several automations at once (each has its own record, row and key).
- Runs.RunTable.ExecuteSlot: the database's unique index is a map key, attempts of a slot run one after another, and step internals are outcomes; item de-duplication across runs is not modelled.
- Goroutines and deadlines of the query executor, HTTP handlers, the agent, bundles, tokens and sessions.
