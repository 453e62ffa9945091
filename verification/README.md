# Booking, agenda and pricing: a verified model

The system rents out resources (courts, rooms) by the slot. An owner publishes a resource with weekly
operating hours, a slot length and pricing rules; customers request ranges of whole slots; the owner
approves or rejects; approving one request rejects the pending ones that compete with it. This project
models that core in Dafny and proves what holds after every call, every run and every interleaving.

## How it is organised

| file | what it models |
|---|---|
| `Calendar.dfy` | whole-minute instants, weekdays, half-open ranges, the slot grid |
| `Schedules.dfy` | weekly operating hours and the factory that validates them |
| `Pricing.dfy` | pricing rules, their validation, the price of a range |
| `Resources.dfy` | the resource aggregate: creation and every mutator, as a class |
| `Grid.dfy` | the two walks over the slot grid: the check of a request, and the agenda |
| `AgendaFilter.dfy` | when the agenda may be computed from the bookings of its range only |
| `AgendaRuns.dfy` | the same over all reachable stores, changes of the slot length included |
| `Bookings.dfy` | the booking entity as a class, its note and history, the repository's queries |
| `Protocol.dfy` | each command as one step over a store, and the invariant of all runs |
| `Runs.dfy` | theorems about commands and runs: approval, clean stores, deletion, collisions |
| `Effects.dfy` | exactly when each other command succeeds and what it changes; retries; notices |
| `Handlers.dfy` | the handlers as they run, over entities and a mutable store; each equals its step |
| `ApproveRace.dfy` | concurrent Approve calls in four phases, with locks, and their refinement to the protocol |
| `RaceOutcomes.dfy` | which of the concurrent calls succeed, and that all can finish |
| `BlockLock.dfy` | what goes wrong with a lock that ends before the commit |
| `RequestRace.dfy` | concurrent Request calls, which take no lock |
| `Examples.dfy` | concrete inputs with their whole answers: fault codes, stored forms |
| `Scenarios.dfy` | concrete runs from the empty store at which a property fails |
| `Notifications.dfy` | keyset pagination |
| `Ratings.dfy` | the owner's rolled-up rating |
| `Codec.dfy` | stored forms of schedules, pricing rules and histories |

Time is a whole number of minutes. A resource's local time is UTC plus a fixed offset, so weekday and
time of day are a division and a remainder by 1440. Everything on the grid rests on one fact: each
allowed slot length divides 1440, and a window ends by 23:59.

A handler is described twice. `Handlers.BookingService` follows the source: it loads entities, mutates
them, writes rows back one at a time and logs notices as it goes. `Protocol` gives the outcome of the
same command as one transition of a store. `Performs` ties the two: final state and result are exactly
those of the transition, and a refused command leaves the state alone. Invariants over runs are then
proved about transitions.

## What the proofs found

- A second customer may become PENDING over a slot that is already APPROVED, since the duplicate check
  looks at the same customer only (`Scenarios.PendingOverApprovedIsReachable` gives the run).
  `Runs.RequestSoilsExactlyOverApproved` says exactly when a request does this, and
  `Runs.ApproveAbortsExactlyOnOverlap` what happens when that second request is approved.
- "No two overlapping APPROVED bookings" is an invariant of all runs with the exclusion constraint,
  which exists on Postgres. Without it the same run ends with two such bookings
  (`Scenarios.ApprovedOverlapIsReachable`). `Runs.ApprovedStayDisjointExactly` gives the step at which
  this happens, and `Runs.CarefulRunsStayClean` the runs in which it never does.
- Among concurrent Approve calls of PENDING rivals, a lock held to commit is enough without the
  constraint (`RaceOutcomes.RivalsNeverBothApproved`), and exactly one of several rivals succeeds
  (`RaceOutcomes.ExactlyOneRivalSucceeds`). A lock released at the end of the locked block, before the
  commit, is not enough: of two calls both succeed, and the first winner's booking ends REJECTED
  (`BlockLock.BlockLockLetsBothSucceed`); of three, two overlapping bookings both end APPROVED
  (`BlockLock.BlockLockLetsRivalsBothBeApproved`). It is enough in schedules in which no call re-reads
  between another's write and its commit (`BlockLock.PoliteRaceRefinesProtocol`).
- The agenda is computed from the bookings that meet its range. For a range that starts on the grid, and
  bookings on the same grid, that changes nothing (`AgendaFilter.FilteredAgendaIsExactOnGrid`). From
  10:15 to 11:00 it lists a slot to 11:15 as available over an APPROVED booking at 11:00
  (`Scenarios.OffGridAgendaMissesABooking`), and after a change of slot length even a range on the grid
  can overlook a booking (`Scenarios.RegriddedAgendaMissesABooking`).
  `AgendaFilter.AgendaIsRightExactly` tells for any store and range whether the agenda is right.
  `AgendaRuns.AgendaIsExactOverRuns` tells for which resources and ranges it is right in every reachable
  store: exactly when no listed slot holds an instant, at or after the end of the range, at which a slot
  of some allowed length may start. As long as the slot length and hours have not changed, the weaker
  condition of `AgendaFilter.AgendaIsExactWithoutHiddenStarts` is the exact one.
- The owner's rating is rounded twice. It differs from the mean rounded once by at most one tenth
  (`Ratings.RollUpIsOneTenthOff`), and nine scores at which it does are given
  (`Ratings.NineScoresDiffer`). The two agree when at most one resource is rated, and when every
  resource's mean is a whole number of tenths.
- The expiry job promises that a retry is safe. Its entry point (`app/jobs/expire_pending_bookings.py`,
  lines 33-44) returns from inside the loop over the session generator, before the commit at
  `app/infrastructure/db/session.py`, line 38, so the store stays as it was and a retry counts the same
  bookings again (`Effects.JobRetryCounts`, `Scenarios.ExpiryJobCountsAgain`). The handler, followed by
  a commit, does keep the promise (`Effects.ExpireIsIdempotent`). The protocol's Expire step is the
  handler followed by a commit.
- A comment in `app/domain/bookings/lock.py` (lines 8-9) says that requesting a booking takes the lock.
  The code does not; the model follows the code. So two requests of one customer for overlapping ranges
  both succeed when both pass the duplicate check before either commits
  (`Scenarios.TwinRequestsAreBothTaken`). `RequestRace.DisjointExactly` proves that this is the only way
  in which concurrent requests break the disjointness of a customer's bookings.

## Model

| member | source | states |
|---|---|---|
| Calendar.OverlapIsASharedMinute | app/domain/shared/value_objects/date_time_range.py:35-37 | two half-open ranges overlap, by the two comparisons, if and only if some minute lies in both; touching ranges do not |
| Calendar.ClockReads | app/domain/shared/weekday.py:21-40 | the first day is a Monday counted from midnight, and a day later it is the next weekday by name at the same time of day, for every minute |
| Calendar.OnGridMeansMultiple | app/domain/resources/weekly_schedule.py:50-52 | a zero remainder is being a whole number of slots from the origin |
| Calendar.GridRestartsAtMidnight | app/domain/shared/value_objects/slot_duration.py:12 | because every allowed slot length divides a day, a local minute is on its day's grid exactly when it is on the one unbroken grid |
| Calendar.CellStaysInDay | app/domain/shared/value_objects/slot_duration.py:12 | a slot that starts on the grid never straddles midnight |
| Schedules.Create | app/domain/resources/weekly_schedule.py:34-86 | succeeds if and only if every day is aligned, sorted and pairwise disjoint, and then holds exactly the given windows; otherwise lists exactly the faults; a zero slot length is accepted for a week without windows |
| Schedules.DayFaults | app/domain/resources/weekly_schedule.py:48-71 | one day's loop reports exactly the faults a window shows by itself or against the window just before it |
| Schedules.NeighboursSuffice | app/domain/resources/weekly_schedule.py:58-71 | comparing neighbours only is as good as comparing all pairs: no local fault if and only if the day is aligned, sorted and pairwise disjoint |
| Schedules.NoFaultMeansOk | app/domain/resources/weekly_schedule.py:44-76 | the whole week is good if and only if no fault of any kind exists on any day |
| Schedules.GoodDayMeans | app/domain/resources/weekly_schedule.py:48-71 | a good day, spelled out: every window starts and ends a whole number of slots from midnight, and each ends before the next starts |
| Schedules.OpenCell | app/domain/resources/weekly_schedule.py:50-56 | under a valid schedule a grid slot is open in all its minutes or in none, and no slot that ends at midnight is open |
| Pricing.ClashIsASharedMinute | app/domain/resources/resource.py:208-215 | the validator's overlap test holds if and only if some local minute of the week is priced by both rules |
| Pricing.ValidatePricingRules | app/domain/resources/resource.py:173-222 | returns exactly the faults of the list, and none if and only if all rules are aligned, inside hours and pairwise disjoint on shared weekdays |
| Pricing.NoFaultMeansRulesOk | app/domain/resources/resource.py:181-222 | per-rule checks against earlier rules add up to the global condition on the rule list, in both directions |
| Pricing.ClashesWithEarlier | app/domain/resources/resource.py:208-220 | the inner loop answers whether some earlier rule clashes |
| Pricing.CheckContainment | app/domain/resources/resource.py:195-206 | the weekday loop answers whether on each of the rule's days one operating window holds every minute of the rule's window |
| Pricing.InsideHoursByTheMinute | app/domain/resources/resource.py:195-206 | a rule is inside the hours if and only if on each of its days one operating window holds every minute that the rule's window holds |
| Pricing.PricedMinutesAreOpen | app/domain/resources/resource.py:193-206 | every minute that a good rule prices is a minute at which the resource is open |
| Pricing.ComputePrice | app/domain/resources/resource.py:400-432 | the total is the sum of the tariff at each slot start, absent exactly when it exceeds what money can hold; for a single slot it is the price in force at its start: that of a rule that matches, or the base price when none does |
| Pricing.FirstMatchIsInList | app/domain/resources/resource.py:421-427 | the rule found is in the list and matches; none found means none matches |
| Pricing.PriceHoldsThroughCell | app/domain/resources/resource.py:184-191 | aligned rules never change the price inside a slot |
| Pricing.WalkSplits | app/domain/resources/resource.py:415-430 | totals add up over ranges that meet at a slot boundary, for any tariff whatsoever, so for any local clock |
| Pricing.PriceRefinesMinuteTariff | app/domain/resources/resource.py:410-432 | for a grid-aligned range of whole slots, slot length times total equals the sum over all minutes of the price in force |
| Pricing.AtMostOneRuleMatches | app/domain/resources/resource.py:405-408 | under the no-clash invariant at most one rule matches any local minute, as the docstring claims |
| Pricing.MatchIgnoresOrder | app/domain/resources/resource.py:421-427 | the matching rule is the same for every permutation of a rule list without clashes |
| Pricing.PriceIgnoresRuleOrder | app/domain/resources/resource.py:415-430 | the total of a range is the same for every permutation of such a list |
| Pricing.TariffIsInForce | app/domain/resources/resource.py:421-429 | without clashes the tariff at a minute is the price of a matching rule, or the base price when none matches, and no other price is |
| Pricing.SlotCostsItsRule | app/domain/resources/resource.py:421-429 | a slot whose start a rule matches costs that rule's price |
| Pricing.SlotCostsBase | app/domain/resources/resource.py:408-429 | a slot whose start no rule matches costs the base price |
| Pricing.PriceIsSumOfPricesInForce | app/domain/resources/resource.py:410-432 | for whole slots on the grid, slot length times total is the sum of the prices in force at all minutes |
| Resources.ValidateCustomAttributes | app/domain/resources/resource.py:224-247 | returns exactly the duplicate keys and the conflicts with base keys, and none if and only if keys are unique and disjoint from the base |
| Resources.NoFaultMeansCustomsOk | app/domain/resources/resource.py:234-245 | the running check of seen keys amounts to pairwise distinct keys, none of them a base key |
| Resources.Resource.Create | app/domain/resources/resource.py:69-162 | succeeds if and only if slot, price, cutoff and all cross-rule conditions are good, and lists exactly the faults otherwise; the aggregate satisfies its invariant if and only if the hours fit the slot length |
| Resources.Resource.ReplaceOperatingHours | app/domain/resources/resource.py:304-314 | succeeds if and only if the present rules fit the new hours; changes only the hours; keeps the invariant if and only if the hours fit the slot length; a failure changes nothing and lists the faults |
| Resources.Resource.ReplacePricingRules | app/domain/resources/resource.py:316-326 | succeeds if and only if the new rules fit; changes only the rules; a failure changes nothing and lists the faults |
| Resources.Resource.ReplaceBaseAttributes | app/domain/resources/resource.py:328-337 | succeeds if and only if the new base keys avoid the custom keys; a failure changes nothing and lists the faults |
| Resources.Resource.ReplaceCustomAttributes | app/domain/resources/resource.py:339-348 | succeeds if and only if the new custom keys are unique and avoid the base keys; a failure changes nothing and lists the faults |
| Resources.Resource.SetSlotDuration | app/domain/resources/resource.py:358-378 | succeeds if and only if all windows and rules are aligned to the new length; keeps exactly the same windows and rules; a failure changes nothing and lists the faults |
| Resources.Resource.SetBasePrice | app/domain/resources/resource.py:350-352 | changes the base price only and keeps the invariant |
| Resources.Resource.SetCancellationCutoff | app/domain/resources/resource.py:354-356 | changes the cutoff only and keeps the invariant |
| Resources.Resource.SetPublished | app/domain/resources/resource.py:380-386 | changes the published flag only and keeps the invariant |
| Resources.Resource.SoftDelete | app/domain/resources/resource.py:388-395 | succeeds if and only if not yet deleted; records the time and nothing else; a failure changes nothing |
| Resources.RegridNeedsOnlyAlignment | app/domain/resources/resource.py:358-378 | of the whole invariant only alignment depends on the slot length, so re-validation on another grid can fail for no other reason |
| Resources.FinerGridAlwaysFits | app/domain/resources/resource.py:358-378 | changing to an allowed length that divides the present one is never refused |
| Bookings.Booking.CreatePending | app/domain/bookings/booking.py:27-49 | a new booking is PENDING with an empty history and the given note |
| Bookings.Booking.Transition | app/domain/bookings/booking.py:99-121 | a valid transition changes status, history and update time together; a failed one changes nothing |
| Bookings.Booking.Approve | app/domain/bookings/booking.py:58-65 | an approval is recorded for the owner, without a reason |
| Bookings.Booking.Reject | app/domain/bookings/booking.py:67-76 | a rejection is recorded for the owner, with the given reason |
| Bookings.Booking.Cancel | app/domain/bookings/booking.py:78-88 | a cancellation is recorded for the given actor and role |
| Bookings.Booking.Expire | app/domain/bookings/booking.py:90-97 | an expiry is recorded under the customer's own name |
| Bookings.KeptNoteIsCore | app/domain/shared/value_objects/short_description.py:16-21 | a note that is given and not empty is kept without its outer blanks, and nothing else of it is lost |
| Bookings.TransitionTable | app/domain/bookings/status_change.py:59-71 | the five pairs of statuses that are transitions |
| Bookings.TransitionFailsWith | app/domain/bookings/status_change.py:45-48 | a reason over 500 characters is reported first, then an invalid pair |
| Bookings.TransitionExtendsHistory | app/domain/bookings/status_change.py:32-71 | succeeds exactly on a listed pair with a reason that fits; appends one change, strictly lowers the rank, keeps the chain valid |
| Bookings.HistoryIsShort | app/domain/bookings/status_change.py:59-67 | a valid history has at most two changes, and its length plus the rank of the status is at most two |
| Bookings.ListIsExact | app/infrastructure/repositories/booking_repository.py:199-255 | every unpaged query returns exactly the stored rows that satisfy its filter |
| Bookings.ByStartSorts | app/infrastructure/repositories/booking_repository.py:212 | the order of the agenda's query is a permutation of the rows, sorted by start |
| Bookings.ListHasUniqueIds | app/infrastructure/repositories/booking_repository.py:138-177 | no unpaged query returns a row twice |
| Bookings.Find | app/infrastructure/repositories/booking_repository.py:113-116 | finds a row with the id, or there is none |
| Grid.ValidateAlignmentAndHours | app/use_cases/bookings/commands/request_booking.py:129-157 | accepts if and only if the range starts on the grid, has whole slots and every slot start is open; says which of the two conditions failed |
| Grid.WholeSlotsMeans | app/use_cases/bookings/commands/request_booking.py:135-142 | alignment, spelled out: the local start is a whole number of slots from midnight and the length a whole number of slots |
| Grid.AcceptsMeansEveryMinuteOpen | app/use_cases/bookings/commands/request_booking.py:146-157 | although slot starts only are checked, a range is accepted if and only if it is aligned and every one of its minutes is inside an operating window |
| Grid.AcceptedStaysInOneDay | app/use_cases/bookings/commands/request_booking.py:146-157 | every accepted range lies in one local day and ends at least one slot before midnight |
| Grid.GenerateSlots | app/use_cases/bookings/queries/get_agenda.py:76-149 | the walk's output is the agenda: one complete slot for each emitting instant, in order; the number of iterations is counted |
| Grid.BuildSlot | app/use_cases/bookings/queries/get_agenda.py:112-147 | status, ids and price of one slot are those of its specification |
| Grid.StartsAreExact | app/use_cases/bookings/queries/get_agenda.py:94-110 | an instant is listed if and only if it is in the range, a whole number of slots from its start, and emitting |
| Grid.ListedExactly | app/use_cases/bookings/queries/get_agenda.py:94-148 | an agenda contains the slot of an instant if and only if the walk emits there, and contains nothing else |
| Grid.SlotsAreOrderedAndInsideWindows | app/use_cases/bookings/queries/get_agenda.py:94-148 | from any range start, on the grid or off it, slots are strictly increasing, disjoint, one slot long, inside a single operating window and on one local date |
| Grid.EmittedInsideOneWindow | app/use_cases/bookings/queries/get_agenda.py:98-110 | the weak end check of the walk still keeps each slot inside the window that holds its start |
| Grid.EmitsExactly | app/use_cases/bookings/queries/get_agenda.py:98-110 | under good hours, on the grid or off it, an instant becomes a slot if and only if one window of its day holds the whole slot |
| Grid.WalkLength | app/use_cases/bookings/queries/get_agenda.py:95-148 | the walk takes the length divided by the slot length, rounded up, iterations |
| Grid.WalkIsBounded | app/use_cases/bookings/queries/get_agenda.py:41-42 | within the 31-day limit that is at most 1488 |
| Grid.AgendaListsTheRequestableSlots | app/use_cases/bookings/queries/get_agenda.py:93-148 | for a range start on the grid, a slot is listed if and only if it starts at a grid point of the range and a request for it passes the check |
| Grid.RequestIsAUnionOfListedSlots | app/use_cases/bookings/commands/request_booking.py:133-157 | a request of several slots in the range passes if and only if it is aligned and the agenda lists every one of its cells |
| Grid.EmitsMeansAccepted | app/use_cases/bookings/queries/get_agenda.py:99-110 | on the grid the agenda's window test and the request's test agree on a single slot |
| Grid.EmitsIffOpen | app/use_cases/bookings/queries/get_agenda.py:99-110 | on the grid the agenda's window test amounts to the slot start being open |
| Grid.OneSlotPrice | app/use_cases/bookings/queries/get_agenda.py:139 | the price of a single slot is the price in force at its start, so it is never absent |
| Grid.TotalIsSumOfListedPrices | app/use_cases/bookings/queries/get_agenda.py:139 | the total of a range whose slots are all listed is the sum of the listed prices |
| Grid.SlotShowsPriceInForce | app/use_cases/bookings/queries/get_agenda.py:139 | the price a slot shows is the price in force at its start, and no other |
| Grid.StatusMeansOverlap | app/use_cases/bookings/queries/get_agenda.py:117-137 | a slot shows APPROVED over PENDING over AVAILABLE by overlap; ids appear in the owner's view only, and name an overlapping booking of the status shown |
| AgendaFilter.SlotIsRightExactly | app/use_cases/bookings/queries/get_agenda.py:60-65 | for every store, range and slot: the slot computed from the range's bookings differs from that of the whole store if and only if no APPROVED booking that starts before the end of the range overlaps it, and either an APPROVED one that starts later does, or a PENDING one that starts later does while no PENDING one that starts before does |
| AgendaFilter.AgendaIsRightExactly | app/use_cases/bookings/queries/get_agenda.py:60-73 | the whole agenda is that of the whole store if and only if none of its slots overlooks a booking |
| AgendaFilter.SlotIgnoresFarBookings | app/infrastructure/repositories/booking_repository.py:199-215 | a slot is the same whether computed from the range's bookings or from the whole store, unless a booking starts after the range and inside the slot |
| AgendaFilter.SameSlotsSameAgenda | app/use_cases/bookings/queries/get_agenda.py:60-73 | two agendas of a range are equal if and only if each listed slot is the same in both |
| AgendaFilter.FilteredAgendaIsExact | app/use_cases/bookings/queries/get_agenda.py:60-73 | for a range of whole slots the filter changes nothing in the agenda, whatever the store holds |
| AgendaFilter.FilteredAgendaIsExactOnGrid | app/use_cases/bookings/queries/get_agenda.py:60-73 | for a range that starts on the grid, of any length, it changes nothing either, if the resource's bookings start on that grid |
| AgendaFilter.FilteredSlotIsExact | app/use_cases/bookings/queries/get_agenda.py:60-65 | on an unchanged grid: a slot of any range is right for every store of bookings that pass the present check if and only if no open grid point lies after the range and inside the slot |
| AgendaFilter.AgendaIsExactWithoutHiddenStarts | app/use_cases/bookings/queries/get_agenda.py:60-73 | on an unchanged grid: the whole agenda is right for every such store if and only if none of its slots hides such a point |
| AgendaFilter.AgendaShowsFirstToStart | app/use_cases/bookings/queries/get_agenda.py:117-124 | of several bookings that overlap a slot with the same status, the one shown is the first to start |
| AgendaRuns.AnyStartIsAcceptable | app/use_cases/bookings/commands/request_booking.py:133-157 | every instant at which a slot of an allowed length fits before midnight is accepted under some good hours of that slot length |
| AgendaRuns.OnceAcceptedMayStart | app/use_cases/bookings/commands/request_booking.py:133-157 | a range accepted under any allowed slot length and good hours starts at such an instant |
| AgendaRuns.AgendaIsExactForOnceBookable | app/use_cases/bookings/queries/get_agenda.py:60-73 | the agenda is right for all stores of bookings that were each admitted under some slot length and hours if and only if no listed slot holds such an instant after the range |
| AgendaRuns.ReachableIsOnceBookable | app/use_cases/bookings/commands/request_booking.py:87-113 | in every reachable store each booking of a resource was once admitted at that resource's clock |
| AgendaRuns.AgendaIsExactOverRuns | app/domain/resources/resource.py:358-378 | the agenda of a live resource is right in every reachable store that holds it if and only if no listed slot holds such an instant after the range, slot lengths and hours having changed in any way before |
| Protocol.MovedFollows | app/domain/bookings/booking.py:99-121 | a row after a transition is a later version of the same booking |
| Protocol.RowFollows | app/use_cases/bookings/commands/approve_booking.py:84-100 | no change makes a settled booking active again, no change touches a booking that stays PENDING, and only an approval's target becomes APPROVED |
| Protocol.ApplyKeepsApprovedDisjoint | app/migrations/versions/20260427_1000_bookings_table.py:57-63 | with the constraint as a guard, no change creates overlapping APPROVED bookings of one resource |
| Protocol.ApplyKeepsQuiet | app/use_cases/bookings/commands/approve_booking.py:55-57 | no change reopens a deleted resource |
| Protocol.DeletionIsQuiet | app/use_cases/resources/commands/soft_delete_resource.py:51-82 | right after a deletion the resource has no PENDING booking and no APPROVED one that starts at or after it |
| Protocol.RequestMayJoin | app/use_cases/bookings/commands/request_booking.py:68-113 | a request that is taken is for a live resource and is disjoint from every active booking of the same customer there |
| Protocol.JoinKeepsInv | app/use_cases/bookings/commands/request_booking.py:92-113 | adding such a booking keeps the whole invariant |
| Protocol.ChangeKeepsInv | app/use_cases/bookings/commands/approve_booking.py:84-100 | every in-place change keeps the whole invariant |
| Protocol.DeleteKeepsInv | app/use_cases/resources/commands/soft_delete_resource.py:42-95 | the cascade of a deletion keeps the whole invariant |
| Protocol.StepKeepsInv | app/infrastructure/db/session.py:33-41 | every command, taken or refused, keeps the whole invariant |
| Protocol.EveryRunKeepsInv | app/use_cases/bookings/commands/request_booking.py:92-113 | after every run of every command from the empty store: unique ids, valid histories, no overlapping APPROVED bookings under the constraint, disjoint active bookings per customer, quiet deleted resources |
| Runs.ApproveAbortsExactlyOnOverlap | app/migrations/versions/20260427_1000_bookings_table.py:57-63 | an otherwise valid approval is aborted by the constraint if and only if its target overlaps an APPROVED booking of the resource, and then changes nothing |
| Runs.ApprovesExactly | app/use_cases/bookings/commands/approve_booking.py:45-90 | an approval succeeds if and only if the owner of a live resource, with an operational subscription, approves a PENDING booking and no constraint stops it |
| Runs.ApproveEffect | app/use_cases/bookings/commands/approve_booking.py:75-100 | a successful approval approves its target, rejects exactly the other PENDING bookings of the resource that share a minute with it, with the fixed reason, and leaves every other row and every resource as it was |
| Runs.ApproveNotices | app/use_cases/bookings/commands/approve_booking.py:102-120 | the winner's customer is told first, then the customer of each loser once, and nobody else |
| Runs.ApproveFromCleanSucceeds | app/use_cases/bookings/commands/approve_booking.py:75-100 | from a store where no PENDING overlaps an APPROVED, an otherwise valid approval never aborts and leaves such a store |
| Runs.OnlyRequestSoils | app/use_cases/bookings/commands/request_booking.py:92-113 | no command other than a request can make a PENDING overlap an APPROVED |
| Runs.RequestSoilsExactlyOverApproved | app/use_cases/bookings/commands/request_booking.py:92-113 | a request that is taken does so if and only if its range overlaps an APPROVED booking of the resource |
| Runs.ApprovedStayDisjointExactly | app/migrations/versions/20260427_1000_bookings_table.py:47-63 | from a store without overlapping APPROVED bookings, a step makes two overlap if and only if it is an otherwise valid approval of a target over an APPROVED booking and there is no constraint |
| Runs.CarefulRunsStayClean | app/use_cases/bookings/commands/request_booking.py:92-113 | in a run no PENDING ever overlaps an APPROVED if and only if no request of it is taken over an APPROVED booking; then no two APPROVED bookings overlap, with the constraint or without |
| Runs.StepFollows | app/domain/bookings/booking.py:108-121 | a step turns each row into a later version of itself and adds at most one |
| Runs.RunFollows | app/domain/bookings/booking.py:108-121 | over a whole run a booking keeps its identity, slot and price, its history only grows, and its rank falls whenever it changes |
| Runs.ReachableHistories | app/domain/bookings/status_change.py:59-71 | in every reachable store each history is a valid chain of at most two changes |
| Runs.DeletedIsFinal | app/use_cases/resources/_common.py:22-24 | no command undoes a deletion or adds a booking to a deleted resource |
| Runs.DeletedStaysQuiet | app/use_cases/resources/commands/soft_delete_resource.py:51-82 | in every later store a deleted resource has no PENDING booking, no APPROVED one that starts at or after its deletion, and no new booking |
| Runs.ReachableBookingsNeverCollide | app/migrations/versions/20260427_1000_bookings_table.py:57-63 | in no reachable store do two APPROVED bookings of one resource share a minute (under the constraint), nor two active bookings of one customer there |
| Runs.TakenRequestIsSound | app/use_cases/bookings/commands/request_booking.py:83-113 | a new booking starts in the future, lies in one local day, is open in every minute, and is priced by the minute tariff |
| Runs.TakenRow | app/use_cases/bookings/commands/request_booking.py:101-126 | every field of the row that a taken request stores, the kept note included, and the one notice to the owner |
| Runs.TakenRequestPaysPricesInForce | app/domain/resources/resource.py:410-432 | slot length times the price of a taken booking is the sum of the prices in force at its minutes |
| Runs.TakenRequestCostsItsListedSlots | app/use_cases/bookings/queries/get_agenda.py:139 | a taken booking's total is the sum of the prices that an agenda of any enclosing on-grid range shows for its slots, all of which that agenda lists |
| Effects.RequestTakenExactly | app/use_cases/bookings/commands/request_booking.py:49-113 | a request is taken if and only if it is a future range of whole slots, open in every minute, at a live published resource of an operational owner, shares no minute with an active booking of the same customer there, is payable and carries no overlong note; otherwise nothing changes |
| Effects.RequestFailsWith | app/use_cases/bookings/commands/request_booking.py:49-114 | a refused request fails with exactly the first reason against it: bad input, missing or deleted resource, unpublished or inactive owner, past, misaligned, closed minutes, the customer's own booking, price, id |
| Effects.ApproveFailsWith | app/use_cases/bookings/commands/approve_booking.py:46-90 | which failure a refused approval gets, each by its own condition |
| Effects.RejectExactly | app/use_cases/bookings/commands/reject_booking.py:48-77 | succeeds if and only if the owner rejects a PENDING booking with a reason that fits; moves that one row and tells its customer once |
| Effects.RejectFailsWith | app/use_cases/bookings/commands/reject_booking.py:40-60 | which failure a refused rejection gets, each by its own condition |
| Effects.CancelExactly | app/use_cases/bookings/commands/cancel_booking.py:56-98 | succeeds if and only if the booking is active and the actor is the owner, or its customer with more than the cutoff left; moves that one row, and tells the other party once |
| Effects.CancelFailsWith | app/use_cases/bookings/commands/cancel_booking.py:48-83 | which failure a refused cancellation gets: a stranger, a customer past the cutoff, a settled booking or overlong reason |
| Effects.ExpireEffect | app/use_cases/bookings/commands/expire_pending_bookings.py:35-56 | exactly the PENDING bookings that have started expire, under their customer's name; every other row is as it was |
| Effects.ExpiryNotices | app/use_cases/bookings/commands/expire_pending_bookings.py:40-57 | the customer of each expired booking is told once that it is rejected, nobody else is, and the answer counts them |
| Effects.ExpireIsIdempotent | app/use_cases/bookings/commands/expire_pending_bookings.py:32-57 | after a committed run of the handler another one changes nothing, tells nobody and counts none, until a further PENDING booking starts |
| Effects.JobRetryCounts | app/jobs/expire_pending_bookings.py:30-45 | a run of the job counts what the handler would expire; its retry, on the same store, counts no fewer, and none if and only if no PENDING booking has started |
| Effects.DeleteExactly | app/use_cases/resources/commands/soft_delete_resource.py:42-59 | succeeds if and only if the owner deletes a live resource none of whose APPROVED bookings has yet to start; otherwise nothing changes |
| Effects.DeleteEffect | app/use_cases/resources/commands/soft_delete_resource.py:61-82 | cancels exactly the PENDING bookings of the resource, with the fixed reason, and changes nothing else but the deletion time |
| Effects.DeletionNotices | app/use_cases/resources/commands/soft_delete_resource.py:84-94 | the customer of each booking that a deletion cancels is told once that it is cancelled, and nobody else is |
| Effects.DeleteFailsWith | app/use_cases/resources/commands/soft_delete_resource.py:43-59 | which failure a refused deletion gets, each by its own condition |
| Effects.OneNoticePerChangedBooking | app/use_cases/bookings/commands/approve_booking.py:102-120 | every command sends exactly as many notices as it changes or adds bookings; a refused one sends none |
| Handlers.BookingService.Update | app/infrastructure/repositories/booking_repository.py:257-268 | replaces the one row with the id, or changes nothing: because it is missing, or because the constraint refuses a second overlapping APPROVED row |
| Handlers.BookingService.Add | app/infrastructure/repositories/booking_repository.py:108-111 | appends the row unless its id is taken |
| Handlers.BookingService.Request | app/use_cases/bookings/commands/request_booking.py:49-127 | ends in exactly the state and result of the request transition; each failing gate leaves the state alone |
| Handlers.BookingService.Approve | app/use_cases/bookings/commands/approve_booking.py:45-121 | ends in exactly the state and result of the approval transition; each failing gate leaves the state alone |
| Handlers.BookingService.ApproveUnderLock | app/use_cases/bookings/commands/approve_booking.py:67-100 | the critical section writes target and competitors row by row and performs the whole change, or none of it |
| Handlers.BookingService.RejectEach | app/use_cases/bookings/commands/approve_booking.py:92-100 | the loop brings exactly the competitors' rows to their final values |
| Handlers.BookingService.SaveMoved | app/infrastructure/repositories/booking_repository.py:257-268 | writing back one transitioned row that is not APPROVED is never refused and completes the change |
| Handlers.BookingService.Reject | app/use_cases/bookings/commands/reject_booking.py:39-77 | ends in exactly the state and result of the reject transition |
| Handlers.BookingService.Cancel | app/use_cases/bookings/commands/cancel_booking.py:47-98 | ends in exactly the state and result of the cancel transition, with cutoff and roles |
| Handlers.BookingService.ExpireEach | app/use_cases/bookings/commands/expire_pending_bookings.py:40-56 | the loop expires every listed booking, tells each customer once and counts them all |
| Handlers.BookingService.Expire | app/use_cases/bookings/commands/expire_pending_bookings.py:32-57 | ends in exactly the state and result of the expiry transition |
| Handlers.BookingService.ExpireJob | app/jobs/expire_pending_bookings.py:30-45 | leaves the store as it was, as its session is never committed, and returns how many late PENDING bookings there are |
| Handlers.BookingService.CancelEach | app/use_cases/resources/commands/soft_delete_resource.py:64-75 | the loop cancels every listed booking and returns all of them |
| Handlers.BookingService.SoftDelete | app/use_cases/resources/commands/soft_delete_resource.py:42-95 | ends in exactly the state and result of the deletion transition |
| Handlers.BookingService.GetAgenda | app/use_cases/bookings/queries/get_agenda.py:40-74 | fails exactly on a range over 31 days or a missing or deleted resource; otherwise returns the agenda within 1488 iterations |
| Handlers.WriteOne | app/infrastructure/repositories/booking_repository.py:257-268 | writing one listed row back moves it, and no other row, to its final value |
| Handlers.SweepEnds | app/use_cases/bookings/commands/approve_booking.py:92-100 | once every listed row is written, the rows are those of the whole change |
| ApproveRace.CommitIsAtomicApprove | app/use_cases/bookings/commands/approve_booking.py:67-100 | the commit of one call changes the store exactly as the atomic approval would at that moment |
| ApproveRace.FailuresAreAtomic | app/use_cases/bookings/commands/approve_booking.py:46-73 | a call that fails, at load or at the re-read, fails with what the atomic approval would answer at that moment |
| ApproveRace.CommitSparesOthers | app/infrastructure/bookings/postgres_lock_service.py:22-38 | a commit leaves valid what every other call has passed or written, because two calls that have written hold different locks |
| ApproveRace.StepKeepsRaceInv | app/use_cases/bookings/commands/approve_booking.py:67-100 | every phase of every call keeps the race invariant, for any lock-key function |
| ApproveRace.RaceRefinesProtocol | app/infrastructure/bookings/postgres_lock_service.py:22-38 | in every interleaving of any number of calls the committed store is that of running the committed approvals one after the other |
| RaceOutcomes.RivalsNeverBothApproved | app/use_cases/bookings/commands/approve_booking.py:67-100 | two overlapping PENDING bookings of one resource never both end APPROVED, in any interleaving, for any key function, with the constraint or without |
| RaceOutcomes.RivalCallsNeverBothSucceed | app/use_cases/bookings/commands/approve_booking.py:67-100 | of two calls for the same booking, or for overlapping bookings of one resource, at most one succeeds |
| RaceOutcomes.LoserFailsUnchanged | app/use_cases/bookings/commands/approve_booking.py:67-73 | in every world that any interleaving reaches, once a call has succeeded, a rival that gets the lock re-reads a booking that is no longer PENDING, fails with the transition error, changes nothing and frees its lock |
| RaceOutcomes.LostOnlyToARival | app/use_cases/bookings/commands/approve_booking.py:67-100 | from a store where no PENDING overlaps an APPROVED, an entitled call for a PENDING booking fails only with the transition error and only because a rival has succeeded |
| RaceOutcomes.ExactlyOneRivalSucceeds | app/use_cases/bookings/commands/approve_booking.py:67-100 | when such calls are rivals of one another and all have finished, exactly one has succeeded |
| RaceOutcomes.NeverStuck | app/infrastructure/bookings/postgres_lock_service.py:22-38 | while some call is unfinished, some call can move: key collisions cost concurrency but never deadlock |
| RaceOutcomes.FewStepsTakeEffect | app/use_cases/bookings/commands/approve_booking.py:45-121 | however long the schedule, at most four steps of each call take effect |
| RaceOutcomes.EveryRunCanFinish | app/infrastructure/bookings/postgres_lock_service.py:22-38 | from every such world some schedule lets all calls finish |
| BlockLock.PoliteRaceRefinesProtocol | app/infrastructure/bookings/in_memory_lock_service.py:19-23 | under a lock that ends with its block, a schedule in which no call re-reads between the write and the commit of another with the same lock leads to the store of running the committed approvals one after the other |
| BlockLock.PoliteRivalsNeverBothApproved | app/infrastructure/bookings/in_memory_lock_service.py:19-23 | so in such a schedule two overlapping PENDING bookings never both end APPROVED |
| BlockLock.BlockLockLetsBothSucceed | app/infrastructure/bookings/in_memory_lock_service.py:19-23 | under a lock that ends with its block, before a deferred commit and without the constraint, two rival calls both succeed; the first winner has been told so, and its booking ends REJECTED |
| BlockLock.BlockLockLetsRivalsBothBeApproved | app/infrastructure/bookings/in_memory_lock_service.py:19-23 | with three calls under that lock two overlapping PENDING bookings both end APPROVED, in a schedule in which calls that write the same row commit in the order of their writes |
| Scenarios.BlockLockFailsFromARun | app/infrastructure/bookings/in_memory_lock_service.py:19-23 | three ordinary requests lead to a store from which this happens |
| Scenarios.PendingOverApprovedIsReachable | app/use_cases/bookings/commands/request_booking.py:93-99 | a concrete run after which a PENDING overlaps an APPROVED and approving it is aborted |
| Scenarios.ApprovedOverlapIsReachable | app/migrations/versions/20260427_1000_bookings_table.py:47-63 | where there is no constraint, approving that request succeeds and two APPROVED bookings overlap |
| Scenarios.OffGridAgendaMissesABooking | app/use_cases/bookings/queries/get_agenda.py:60-65 | a run after which the agenda of a range off the grid lists a slot as available that an APPROVED booking overlaps |
| Scenarios.RegriddedAgendaMissesABooking | app/domain/resources/resource.py:358-378 | a run after which, the slot length having changed, even the agenda of a range on the grid does so for a PENDING booking |
| Scenarios.ExpiryJobCountsAgain | app/jobs/expire_pending_bookings.py:30-45 | a store on which the job counts one booking each time it runs, where a committed handler would leave none |
| RequestRace.UninterruptedIsAtomic | app/use_cases/bookings/commands/request_booking.py:49-127 | a call that is not interrupted between check and insert is the atomic request |
| RequestRace.TakenRivalsCross | app/use_cases/bookings/commands/request_booking.py:92-113 | two requests of one customer for overlapping ranges of a resource that both succeed have each read before the other committed |
| RequestRace.DisjointExactly | app/use_cases/bookings/commands/request_booking.py:92-113 | after any schedule of any requests each customer's active bookings on a resource are disjoint if and only if no two such requests have both succeeded |
| RequestRace.BothReadBothTaken | app/use_cases/bookings/commands/request_booking.py:92-113 | two such requests that each would be taken alone both succeed when both read before either commits |
| Scenarios.TwinRequestsAreBothTaken | app/use_cases/bookings/commands/request_booking.py:92-113 | a store and a schedule after which one customer holds the same slot twice |
| Notifications.SortSorts | app/infrastructure/repositories/notification_repository.py:75-80 | the listing order is a permutation, newest first and of one moment the greater id first |
| Notifications.FirstPageIsNewest | app/use_cases/notifications/queries/list_my_notifications.py:28-42 | the first page is newest first, holds the recipient's own rows only and unread ones only if asked, and a row of theirs is left out only because the page is full of newer ones |
| Notifications.ClampKeeps | app/use_cases/notifications/queries/list_my_notifications.py:28 | a limit from 1 to 100 is kept, others move to the nearer end |
| Notifications.RemainingIsExact | app/infrastructure/repositories/notification_repository.py:75-98 | a cursor leaves, in descending order, exactly the recipient's visible rows below it |
| Notifications.PageThenRest | app/use_cases/notifications/queries/list_my_notifications.py:28-42 | a page is the first items of what remains, up to the clamped limit; its next cursor leaves exactly the rest, and is absent exactly when nothing is left |
| Notifications.NextPageIsSmaller | app/use_cases/notifications/queries/list_my_notifications.py:38-40 | following a cursor leaves strictly less, even when rows with greater keys arrive and rows are marked read meanwhile |
| Notifications.FollowIsExact | app/use_cases/notifications/queries/list_my_notifications.py:28-42 | following the cursor to its end, while rows with greater keys arrive and rows are marked read between pages, returns a strictly descending list of rows that the cursor left, and skips none that stays visible |
| Notifications.FollowReturnsRemaining | app/use_cases/notifications/queries/list_my_notifications.py:28-42 | when nothing is marked read meanwhile, exactly what the cursor left is returned, row for row |
| Notifications.FollowFromStart | app/use_cases/notifications/queries/list_my_notifications.py:28-42 | from the start each notification that stays visible is returned exactly once, newest first, for any limit, and nothing that was not visible then |
| Notifications.UnknownCursorStartsOver | app/infrastructure/repositories/notification_repository.py:83-98 | a cursor that names no notification of the recipient gives the first page again |
| Ratings.RoundingError | app/infrastructure/repositories/rating_repository.py:157-160 | rounding is off by at most half a unit, and even when exactly half |
| Ratings.GetAggregates | app/infrastructure/repositories/rating_repository.py:134-165 | every listed resource, and no other, gets its rounded mean and count, absent exactly without ratings |
| Ratings.OwnerRating | app/use_cases/accounts/queries/get_owner_public_page.py:62-88 | the page's average and count are those of the listed resources' aggregates |
| Ratings.GroupsCoverAllScores | app/infrastructure/repositories/rating_repository.py:146-154 | counts and sums by resource add up to those of all ratings of the listed resources |
| Ratings.WeightedSumIsClose | app/use_cases/accounts/queries/get_owner_public_page.py:84-87 | the weighted sum of rounded averages is within half a tenth per rating of the exact sum |
| Ratings.OwnerRatingIsClose | app/use_cases/accounts/queries/get_owner_public_page.py:78-88 | the rolled-up rating is within 0.1 of the true mean, in [1.0, 5.0], and absent exactly when there are no ratings |
| Ratings.RollUpIsOneTenthOff | app/use_cases/accounts/queries/get_owner_public_page.py:78-88 | the rolled-up rating and the mean of all scores rounded once differ by at most one tenth |
| Ratings.WholeTenthsAgree | app/use_cases/accounts/queries/get_owner_public_page.py:84-88 | they agree when the mean of every resource is a whole number of tenths |
| Ratings.OneRatedResourceAgrees | app/use_cases/accounts/queries/get_owner_public_page.py:84-88 | they agree when at most one of the resources has been rated |
| Ratings.NineScoresDiffer | app/use_cases/accounts/queries/get_owner_public_page.py:84-88 | nine scores whose rounded mean is 3.9 roll up to 3.8 |
| Codec.TimeRoundTrip | app/infrastructure/repositories/resource_repository.py:40-46 | every clock time survives formatting and parsing |
| Codec.ReadTimesAreClockTimes | app/infrastructure/repositories/resource_repository.py:44-46 | what reads as a time is hours below 24 and minutes below 60 on the two sides of the colon |
| Codec.WindowsRoundTrip | app/infrastructure/repositories/resource_repository.py:51-54 | every list of windows survives the store |
| Codec.ScheduleFromJson | app/infrastructure/repositories/resource_repository.py:59-68 | the loop reads the schedule that the stored one stands for, an absent day as closed |
| Codec.ScheduleRoundTrip | app/infrastructure/repositories/resource_repository.py:49-68 | every schedule reads back from the store as itself |
| Codec.RuleRoundTrip | app/infrastructure/repositories/resource_repository.py:71-93 | every pricing rule survives the store, its weekday set included |
| Codec.RulesRoundTrip | app/infrastructure/repositories/resource_repository.py:71-93 | every list of pricing rules reads back as itself, in its order |
| Codec.ChangeRoundTrip | app/infrastructure/repositories/booking_repository.py:29-54 | a status change survives the store if and only if the guarded factory would have built it |
| Codec.HistoryRoundTrip | app/infrastructure/repositories/booking_repository.py:29-54 | a list of status changes survives the store if and only if each of them does |
| Codec.ValidHistoryRoundTrip | app/infrastructure/repositories/booking_repository.py:43-54 | every history a booking can have survives the store |
| Examples.FaultsOfADay | app/domain/resources/weekly_schedule.py:48-71 | the exact faults, by code and place, of a day with three of them |
| Examples.FaultsOfRules | app/domain/resources/resource.py:181-222 | the exact faults, by code and place, of a list of four rules |
| Examples.FaultsOfCustomAttributes | app/domain/resources/resource.py:234-247 | the exact faults, by code and place, of three custom attributes |
| Examples.StoredSchedule | app/infrastructure/repositories/resource_repository.py:49-56 | the stored form of a schedule with one window |
| Examples.StoredRule | app/infrastructure/repositories/resource_repository.py:71-79 | the stored form of a rule, its days in the order of the alphabet |
| Examples.StoredChanges | app/infrastructure/repositories/booking_repository.py:29-40 | the stored form of status changes |

## Left out

- Daylight saving and time-zone rules: the offset of a resource's clock is constant. Request and agenda walk wall-clock time while pricing walks UTC, so across a change of offset they can differ; `Pricing.WalkSplits` alone holds for any clock.
- Sub-minute times, naive datetimes and non-UTC inputs: instants are whole UTC minutes.
- Routes, authentication, logging, and SQLAlchemy itself: a query is its filter and order, a session is commit or rollback; the ORM identity map is not modelled.
- Handlers.BookingService.GetAgenda: looks a resource up by its id; the lookup by slugs is left out. Bookings with equal starts keep store order, where the database may choose.
- Bookings.ListIsExact: covers the unpaged queries; the lists by page for customers and owners are left out.
- Exclusion constraint: the abort is modelled as a refused step, where the original raises an integrity error and rolls back.
- Price overflow: a total above the bound is a refused request, where the original fails on the missing value and rolls back.
- ApproveRace.RaceRefinesProtocol: interleaves Approve calls with each other only, and RequestRace.DisjointExactly Request calls with each other only; commands of different kinds, and Reject, Cancel, Expire and deletion, are atomic steps.
- BlockLock.BlockLockLetsBothSucceed, BlockLock.BlockLockLetsRivalsBothBeApproved: the in-memory lock is documented for single-process use in front of SQLite; a database that admits one writer at a time would refuse these schedules.
- Clock: read once per command and passed in; the subscription state is an `operational` flag, and generated ids are inputs.
- Subscription lifecycle, catalog types, users, and conformance of base attributes to a type schema.
- Resources.Resource.Create: name, slug, description, city, region and time-zone name are not validated here, nor is `update_metadata` modelled: field checks without cross-rule effect.
- Resource handlers around the aggregate: creation and editing enter the protocol as steps that save any resource satisfying the aggregate's invariant; an edit keeps owner and clock, which no mutator changes.
- Schedules.Create: a slot length of zero with some window, on which the original raises, is excluded.
- Loading competitors: each competing entity is rebuilt from its row inside the loop, where the original holds the list of entities.
- Notification payloads and delivery failures: a notice is a recipient and a kind.
- Notifications.FollowIsExact: no notification is deleted between pages, as nothing in the repository deletes one. Ids are compared as integers, where the original compares their text.
- Codec.TimeRoundTrip: parsing accepts decimal digits only; the original's number parser also takes signs, blanks and underscores, which formatting never produces.
- Codec.ScheduleFromJson: a stored window with start not before end, or a stored rule with no weekday or a price out of range, reads back as absent, where the original rebuilds it unchecked.
- Ratings: database averages are exact fractions; a driver that returns a shortened decimal is not modelled.
- Rating creation, moderation and reply: easy members only.
