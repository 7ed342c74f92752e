# AccessPilot: access reviews, multi-directory accounts and directory writes

This project models four parts of the AccessPilot backend in Dafny and proves what they promise.

* **The access-review engine** (`backend/app/services/access_reviews.py`). Campaigns, review items and assignments are
  tables; creating, editing, deciding, completing and the worker's two sweeps are steps on them. `ReviewModel` gives
  each step as a function, `ReviewService` gives it as the program has it (a class whose methods update the tables) and
  proves both equal. `ReviewInvariant` and `ReviewRuns` prove what every interleaving keeps, `ReviewSnapshot` what a
  campaign's roster is, `ReviewSweeps` what the sweeps achieve, and `ReviewCycles` what becomes of a schedule's calendar.
* **The calendar behind fixed schedules** (`compute_next_run`): `Calendar` and `Schedule`.
* **One person's accounts in several directories** (`backend/app/services/accounts.py` on top of
  `backend/app/providers/mock.py`): `MockDirectory`, `AccountModel`, `AccountAgreement`, `AccountRuns`, `AccountService`.
* **The Active Directory connector's writes and its GUID codec**
  (`backend/app/providers/active_directory.py`): `ActiveDirectory` and `Guid`.
* **The dashboard's activation timeline** (`backend/app/services/dashboard.py`): `Timeline`.

`FailingInputs` shows, input by input, where a promise fails.

`dafny verify dfyconfig.toml` checks everything.

## How the model reads the program

* A row's id is its position in its table; rows are never deleted. A step is atomic and takes one clock reading; no
  order is assumed between the readings of different steps. Requests to the database return rows in table order.
* Everything outside the tables comes in through a step's `Env`: the time, the time zone, the answer of
  `revoke_assignment` for each assignment, and who is inactive. A revoke that is accepted makes the assignment REVOKED
  together with whatever it cascades to, one that fails changes nothing, and final states are never left (README.md:276-290).
  Between steps other services may change users, resources and assignments freely, as long as they delete no assignment
  and nobody a campaign names (both are foreign keys) and leave no final status (`ReviewRuns.WorldMay`).
* Notifications are left out except where they decide what happens: one without a recipient cannot be stored, and the
  commit that tries to fails (`ReviewModel.StartNext`).
* Dates end with year 9999, as in Python: a computed due date past it raises an error that nothing catches. The clock
  reads a time before year 9966, from which no schedule looks past the last date (`Schedule.StaysInTheCalendar`).
* A zone is a pair of arbitrary offset functions, both strictly within one day; a fixed offset is one instance.
* Request forms are modelled field by field with their validators (`ReviewRows.ValidForm`); `schedule_time` is an hour
  and a minute.
* Each provider of the account service has one `MockProvider` object that lives on. Any call may fail.
* The directory behind the Active Directory connector may refuse any call with any code, and the connection may break at
  any call, which the directory has then carried out or not.

## What turned out not to hold, and exactly when

* A campaign over inactive users is **stranded** when the directory cannot tell who is inactive: its row has been stored
  before the lookup fails, and the error path of both recurrences keeps it. With a fixed schedule two rows then hold the
  same schedule (`ReviewSweeps.StartsOrStrandsExactly`, `ReviewSweeps.ScheduleIsDuplicatedExactly`, at an input
  `FailingInputs.ScheduleHeldTwice`); with a repeat after completion an open, empty campaign appears that is nobody's
  next cycle (`ReviewSweeps.CompleteEffect`, `FailingInputs.NextCycleStranded`). `ReviewSweeps.SchedulesPerStep`
  accounts for the number of schedules over every step.
* Two kinds of due, scheduled campaigns **end the scheduled sweep**; such a campaign stays due, and so does every due
  holder after it. One that is routed through a workflow: if it is closed, the rebuilt request carries no workflow and
  fails validation outside the `try`; if it is still open, the notification of the skipped start has no recipient and
  the commit is refused. And a closed one whose next campaign would be due past year 9999, which raises outside the
  `try` too (`ReviewRows.ScheduledFormValidExactly`, `ReviewSweeps.ScheduledSweepClearsExactly`,
  `FailingInputs.OneHolderBlocksTheOthers`, `FailingInputs.LongOpenTimeBlocksTheOthers`). The latter can neither be
  edited nor served, so it does so for good (`ReviewSweeps.BlockedForGood`).
* A campaign whose next cycle would be due past year 9999 **ends the overdue sweep** once it is closed, without a child;
  the overdue campaigns after it stay open (`ReviewRows.RecurrenceFormValidExactly`,
  `ReviewSweeps.OverdueSweepClosesExactly`, `FailingInputs.LongPeriodEndsTheSweep`). Decided by hand it is closed too,
  and yet the last decision is answered with an error (`ReviewRuns.LastDecisionClosesExactly`).
* An item decided AUTO_REVOKED does not imply that the access is gone, because a failing revoke is swallowed. It is gone
  exactly when it was final before or some revoke that the directory is asked for and does not refuse takes it down,
  its own or, by cascade, another item's (`ReviewRuns.ClosingDecidesEverything`, `FailingInputs.AutoRevokedButLive`).
* A schedule with steps of two months or more **leaves its months** when it is served late: the next run is computed from
  the time of serving, so the cycle is kept exactly when the month of serving, in local time, is a whole number of steps
  away from the month of the slot (`Schedule.LateRunKeepsCycleExactly`, `ReviewCycles.ServingKeepsCycleExactly`, at an
  input `FailingInputs.LateSweepLeavesTheCycle`). A monthly schedule never leaves it. Even served on the instant, a slot
  is read back into a neighbouring month where local time is skipped across the end of a month
  (`Schedule.StepKeptExactly`, `Schedule.RunsNeverDriftExactly`), as in Kiritimati on 31 December 1994
  (`FailingInputs.SkippedDayShiftsTheCycle`).
* After deletions the in-memory directory hands out an id that is in use exactly when some user holds the number of users
  plus one; after one deletion, unless the last user was deleted (`MockDirectory.NextIdInUseExactly`,
  `MockDirectory.DeletingReusesIdsExactly`, `FailingInputs.DeletedUserIdReused`).
* `create_user` leaves an object behind exactly when it fails after adding it and the object is not cleaned up: the
  clean-up is refused, or the connection broke or the new object is not found again, neither of which is followed by a
  clean-up (`ActiveDirectory.FailureLeavesNothingExactly`, `FailingInputs.AccountLeftBehind`). A search for a conflict
  that is refused counts as none, and exactly then a taken name can be given again
  (`ActiveDirectory.NamesStayUniqueExactly`, `FailingInputs.TakenNameGivenTwice`). An account name is empty exactly when
  only dots are left after cleaning (`ActiveDirectory.SamAccountNameIsLegal`, `FailingInputs.NamelessAccount`). A
  membership change reports success wrongly exactly when it is refused with a code that elsewhere means "already done"
  (`ActiveDirectory.ChangeMemberExactly`, `FailingInputs.RefusedButReportedDone`).
* The documentation of the timeline promises a daily count, but the first day is cut at the present time of day
  (`Timeline.FirstDayIsCompleteExactly`, `FailingInputs.FirstDayMissesTheMorning`).

## Model

| member | source | states |
|---|---|---|
| `Calendar.MonthStartClosedForm` | backend/app/services/access_reviews.py:84-85 | the month lengths used for clamping add up to the Gregorian calendar: every month of every year starts on the day a closed form gives, which names no month length |
| `Schedule.ComputeNextRun` | backend/app/services/access_reviews.py:75-94 | the loop over year and month returns the next run, takes at most two steps in any zone, and steps over no slot that was still ahead |
| `Schedule.NextRunIsLeast` | backend/app/services/access_reviews.py:75-94 | the result is strictly after `after`, is a slot of the cycle starting in the month of `after`, and no slot of that cycle that is ahead comes earlier, in every zone |
| `Schedule.SlotDaysSpread` | backend/app/services/access_reviews.py:84-85 | slots of successive months are at least 28 days apart, across leap years and clamping |
| `Schedule.UtcSlotsIncrease` | backend/app/services/access_reviews.py:84-94 | later months have later slots in UTC, whatever the offsets |
| `Schedule.SlotDate` | backend/app/services/access_reviews.py:84-85 | a slot lies in its month, on the scheduled day or the last day of a shorter month, at the scheduled hour and minute |
| `Schedule.FixedZoneStepsAtMostOnce` | backend/app/services/access_reviews.py:87-94 | with one fixed offset the current month's slot is taken if it is still ahead, otherwise the one `every_months` on |
| `Schedule.FixedZoneEarlierMonthsAreBehind` | backend/app/services/access_reviews.py:87-94 | with one fixed offset no slot of an earlier month was missed |
| `Schedule.RunsNeverDriftExactly` | backend/app/services/access_reviews.py:84-94 | runs fed into each other stay on the slots of months m + kN on day min(day, month length) if and only if the schedule is monthly or every slot passed reads back into its own month: clamping never ratchets |
| `Schedule.FixedZoneRunsAreDated` | backend/app/services/access_reviews.py:75-94 | with a fixed offset the k-th run is, in local time, in month m + kN on day min(day, month length) at the scheduled time, so day 31 returns after a short month |
| `Schedule.LateRunKeepsCycleExactly` | backend/app/services/access_reviews.py:75-94 | in every zone, a next run computed at any time after a slot of month m stays on the months m + kN if and only if the month of that time is a whole number of steps away from m |
| `Schedule.StepKeptExactly` | backend/app/services/access_reviews.py:87-94 | one run leads exactly one step on if and only if the schedule is monthly or the slot reads back into its own month |
| `Schedule.FixedZoneKeepsMonths` | backend/app/services/access_reviews.py:82-94 | with a fixed offset every slot reads back into its own month |
| `Schedule.StaysInTheCalendar` | backend/app/services/access_reviews.py:84-94 | with steps of up to 12 months the loop never looks past year 9999 |
| `ReviewRows.RecurrenceFormValidExactly` | backend/app/services/access_reviews.py:447-454 | the request rebuilt after completion validates if and only if its due date can be expressed; it keeps the scope and is due later |
| `ReviewRows.ScheduledFormValidExactly` | backend/app/services/access_reviews.py:681-690 | the request rebuilt by the scheduled sweep validates if and only if the campaign is not routed through a workflow and the due date can be expressed |
| `ReviewModel.NewRow` | backend/app/services/access_reviews.py:233-248 | the stored row has the request's fields, is open, has one recurrence mode, and a scheduled one runs next at the next slot |
| `ReviewModel.NewRowDefaults` | backend/app/services/access_reviews.py:233-247 | what a scheduled request leaves open: one month per step, and as many whole days as the first campaign is open, but at least one; the scope is stored as it is |
| `ReviewModel.Revoke` | backend/app/services/assignments.py:561-603 | accepted or already final: the assignment is final; failed: nothing changed |
| `ReviewModel.RevokeExactly` | backend/app/services/assignments.py:561-603 | REJECTED, EXPIRED and REVOKED are left alone, a refusal changes nothing, and otherwise exactly the access and what it cascades to become REVOKED |
| `ReviewModel.StartNext` | backend/app/services/access_reviews.py:672-707 | rows change only in when they run next, and the step ends in an uncaught error exactly for a holder routed through a workflow, open or closed, and for a closed one whose next due date cannot be expressed |
| `ReviewModel.OnlyResourcesCanBeMissing` | backend/app/services/access_reviews.py:214-229 | restarting a stored campaign is refused exactly when a resource of its scope is gone; the people it names are kept by foreign keys |
| `ReviewModel.EditModesKeepShape` | backend/app/services/access_reviews.py:343-364 | every combination of fields and clear flags keeps the recurrence modes exclusive, a schedule whole, and a next run on an open scheduled campaign |
| `ReviewModel.UpdateExactly` | backend/app/services/access_reviews.py:298-378 | an edit is stored exactly when the campaign exists and is open, no reviewer field is asked of a workflow-routed one, everybody named exists, and day and time come together; then one row becomes what was asked for, each field otherwise as it was (step and open time: else 1 and 30), and in every other case nothing changes and the error is this one |
| `ReviewRuns.EditTakesEffectAtOnce` | backend/app/services/access_reviews.py:298-342 | an edit decides at once who may decide what is still undecided, in both directions: the reviewer and fallback reviewer it leaves, after the waiting time it leaves, and no former reviewer; for them approving works and revoking fails exactly when the access is not final and the directory refuses |
| `ReviewSnapshot.MatchingExact` | backend/app/services/access_reviews.py:56-72 | a scope, described by the fields of an assignment for each of the eight kinds, selects exactly the live assignments in it, each once; several targets give their duplicate-free union; it fails exactly when inactive users cannot be told |
| `ReviewSnapshot.SnapshotIsExact` | backend/app/services/access_reviews.py:252-262 | the items of a new campaign are in bijection with the assignments in scope, undecided, and copy user, resource and status |
| `ReviewSnapshot.CreateByHandExactly` | backend/app/services/access_reviews.py:205-284 | creating by hand succeeds exactly when the people and resources named exist and the directory can tell what the scope asks for; then one open campaign is added with exactly its roster, otherwise nothing changes and the error is this one |
| `ReviewInvariant.CreateKeepsInv` | backend/app/services/access_reviews.py:205-284 | creating keeps the invariant, also when it stops half-way |
| `ReviewInvariant.DecideKeepsInv` | backend/app/services/access_reviews.py:473-514 | deciding keeps the invariant and changes no decision, closed row or roster |
| `ReviewInvariant.CompleteKeepsInv` | backend/app/services/access_reviews.py:517-559 | completing keeps the invariant and changes no decision, closed row or roster |
| `ReviewInvariant.UpdateKeepsInv` | backend/app/services/access_reviews.py:298-378 | editing keeps the invariant and changes no decision, closed row or roster |
| `ReviewInvariant.SpawnKeepsInv` | backend/app/services/access_reviews.py:434-470 | starting the next cycle keeps chains linear |
| `ReviewInvariant.StartNextKeepsInv` | backend/app/services/access_reviews.py:672-707 | serving a due holder keeps chains linear and never raises for a campaign with a reviewer |
| `ReviewInvariant.CountsTellPending` | backend/app/services/access_reviews.py:381-384 | the decided count reaches the total exactly when nothing is pending |
| `ReviewRuns.RunKeepsInv` | backend/app/services/access_reviews.py:205-708 | every interleaving of the steps with anything the other services do keeps the invariant |
| `ReviewRuns.ReachableStoresKeepInv` | backend/app/services/access_reviews.py:205-708 | every reachable store satisfies the invariant |
| `ReviewRuns.ReachableStoresAreSafe` | backend/app/models/models.py:1090-1135 | in every reachable store: modes exclusive, schedules whole, parents closed and without schedule, one child at most, closed means decided, open means something pending, REVOKED means no live access |
| `ReviewRuns.OnlyTheLastOfAChainIsOpen` | backend/app/services/access_reviews.py:661-667 | of two campaigns of a chain the earlier is closed and holds no next run, so a chain has at most one open campaign and one schedule |
| `ReviewRuns.ClosedCampaignsAreFrozen` | backend/app/services/access_reviews.py:473-483 | after a campaign closed no run changes its row (beyond its schedule) or its items, although deciding never looks at the status |
| `ReviewRuns.RosterAndDecisionsAreFixed` | backend/app/services/access_reviews.py:137-140 | over any run a roster never changes and a decision changes at most once |
| `ReviewRuns.OutcomesAddUp` | backend/app/services/access_reviews.py:381-394 | total = pending + approved + revoked + auto-revoked = pending + decided; nothing pending once closed, something pending while open and not empty |
| `ReviewRuns.CountIsCardinality` | backend/app/services/access_reviews.py:381-394 | a count is the number of items of the campaign with those decisions |
| `ReviewRuns.DecideChangesOneItem` | backend/app/services/access_reviews.py:473-514 | a recorded decision changes one item, records who and when, approving touches no assignment, revoking leaves a final one, and any other answer leaves everything unchanged |
| `ReviewRuns.DecisionIsRecordedExactly` | backend/app/services/access_reviews.py:414-497 | a decision is recorded exactly when the item is undecided, not routed through a workflow, the actor is an administrator, the reviewer or (after the waiting time) the fallback reviewer, and a revoke finds the access final or is not refused; otherwise which error |
| `ReviewSweeps.DecideEffect` | backend/app/services/access_reviews.py:508-514 | the last decision closes the campaign and starts or strands its next cycle, with its exact roster, just as completing does; any other decision changes no row and adds no item |
| `ReviewRuns.LastDecisionClosesExactly` | backend/app/services/access_reviews.py:508-513 | a decision completes the campaign exactly when it decides the last undecided item, and is then answered with an error exactly when the next cycle cannot be dated |
| `ReviewRuns.ClosingDecidesEverything` | backend/app/services/access_reviews.py:523-541 | closing approves or auto-revokes every undecided item, at that time and in the name of nobody; an auto-revoked access is gone if it was final or its own revoke is not refused, and in general exactly when it was final or a revoke the directory is asked for takes it down, cascades and their order included |
| `ReviewSweeps.CompleteLeavesOtherItems` | backend/app/services/access_reviews.py:523-541 | completing a campaign touches no item of any other campaign |
| `ReviewSweeps.CompleteEffect` | backend/app/services/access_reviews.py:434-464 | completing closes one row; it stores the next cycle exactly when the campaign repeats, the due date can be expressed and the resources of its scope exist, and has it as a child, reviewing exactly what the scope has after the closing, exactly when the snapshot can be taken too, otherwise as a stranded row without items |
| `ReviewSweeps.CompleteAnswersExactly` | backend/app/services/access_reviews.py:520-559 | what completing answers, and that it changes nothing for a campaign that does not exist or is closed |
| `ReviewSweeps.OverdueSweepClosesExactly` | backend/app/services/access_reviews.py:562-575 | the overdue sweep at t closes the overdue campaigns up to the first whose next cycle cannot be dated, which ends it; exactly those after it are still overdue, and nothing started during the sweep is |
| `ReviewSweeps.SweepStartsOneChildEach` | backend/app/services/access_reviews.py:434-470 | each overdue campaign gets exactly one child, its next cycle with the same scope and reviewers, when the sweep gets to it, it repeats, the due date can be expressed, the resources of its scope exist and the snapshot can be taken at its turn, and none otherwise |
| `ReviewSweeps.SweepChildReviewsScope` | backend/app/services/access_reviews.py:434-470 | the child an overdue campaign gets reviews exactly the access in its scope as the closings up to its own leave it, whatever later closings take away |
| `ReviewSweeps.ScheduledSweepClearsExactly` | backend/app/services/access_reviews.py:661-708 | the scheduled sweep at t ends early exactly when a due holder is routed through a workflow or is closed with a next due date that cannot be expressed; afterwards exactly the due holders from the first such one on are still due, their rows untouched |
| `ReviewSweeps.BlockedForGood` | backend/app/services/access_reviews.py:661-708 | a closed campaign with a reviewer that ends one sweep ends every later one after any run, and no holder after it is ever served |
| `ReviewSweeps.StartsOrStrandsExactly` | backend/app/services/access_reviews.py:676-707 | when a due holder starts its next campaign, when it strands an empty one, and when nothing is added |
| `ReviewSweeps.ScheduleIsDuplicatedExactly` | backend/app/services/access_reviews.py:691-698 | serving a holder duplicates its schedule exactly when it strands a row |
| `ReviewSweeps.StartNextEffect` | backend/app/services/access_reviews.py:672-707 | a served holder is no longer due; a started campaign has its scope, reviewers and schedule, runs next at the following slot and is due after the configured days |
| `ReviewSweeps.StartedRosterIsExact` | backend/app/services/access_reviews.py:691-698 | a campaign started for a due holder reviews exactly the access in its scope at that time; a start that is skipped or fails adds no item |
| `ReviewSweeps.SweepRostersAreExact` | backend/app/services/access_reviews.py:661-708 | after a whole scheduled sweep each started campaign reviews exactly the access in its scope as the sweep found it, a stranded one nothing, and no earlier item or access is touched |
| `ReviewSweeps.SecondSweepChangesNothing` | backend/app/services/access_reviews.py:661-708 | on all tables the sweep is a fixpoint: at the same time it changes nothing again, whatever the directories answer, and ends early again if it did |
| `ReviewSweeps.ChainsGainAtMostOne` | backend/app/services/access_reviews.py:661-667 | however many slots were missed a chain gains at most one campaign, and none while one of its campaigns is open |
| `ReviewSweeps.SchedulesAreConserved` | backend/app/services/access_reviews.py:699-700 | one scheduled sweep hands schedules over one to one; their number grows only by rows added without being started |
| `ReviewSweeps.SchedulesPerStep` | backend/app/services/access_reviews.py:205-708 | the number of schedules after any step: creating adds the one asked for, an edit adds or takes one as its fields say, a scheduled sweep adds one per stranded row, and no other step changes it |
| `ReviewSweeps.TickSettlesExactly` | backend/app/workers/access_review.py:29-33 | a tick ends early exactly when some next due date cannot be expressed; otherwise afterwards every open campaign is due later and every next run that is held lies ahead, and a second tick at the same time changes nothing |
| `ReviewCycles.HeldRunsAreSlots` | backend/app/services/access_reviews.py:205-708 | over every run in one time zone each holder runs next at a slot of its own schedule, whatever was edited, served or skipped |
| `ReviewCycles.StoredSchedulesStayInTheCalendar` | backend/app/schemas/access_reviews.py:43-46 | with the steps a request may ask for, no stored schedule runs after the last date there is |
| `ReviewCycles.ServingKeepsCycleExactly` | backend/app/services/access_reviews.py:668-700 | serving a slot of month m, started or skipped, leaves the schedule on the months m + kN if and only if the month of serving is a whole number of steps away from m |
| `ReviewService.Service.constructor` | backend/app/models/models.py:1090-1159 | empty review tables satisfy the invariant |
| `ReviewService.Service.MatchingAssignments` | backend/app/services/access_reviews.py:137-154 | the loop with its seen set returns the specified roster |
| `ReviewService.Service.CreateCampaign` | backend/app/services/access_reviews.py:205-284 | the method does what its specification says in all three outcomes, for requests that name a reviewer |
| `ReviewService.Service.CreateByHand` | backend/app/services/access_reviews.py:205-284 | a failing request that names a reviewer keeps nothing |
| `ReviewService.Service.UpdateCampaign` | backend/app/services/access_reviews.py:298-378 | the field-by-field edit equals its specification, for campaigns of either routing, and keeps the invariant |
| `ReviewService.Service.CampaignProgress` | backend/app/services/access_reviews.py:381-384 | the loop counts all and decided items |
| `ReviewService.Service.CampaignOutcomes` | backend/app/services/access_reviews.py:387-394 | the counts per decision, adding up to the total |
| `ReviewService.Service.RevokeAssignment` | backend/app/services/assignments.py:561-603 | the call equals its contract |
| `ReviewService.Service.MaybeSpawnRecurrence` | backend/app/services/access_reviews.py:434-470 | the method equals its specification, for campaigns of either routing |
| `ReviewService.Service.DecideItem` | backend/app/services/access_reviews.py:473-514 | the method equals its specification, for items of either routing, and keeps the invariant |
| `ReviewService.Service.CompleteCampaign` | backend/app/services/access_reviews.py:517-559 | the method with its loop over pending items equals its specification for a campaign with a reviewer, and keeps the invariant |
| `ReviewService.Service.SweepOverdueCampaigns` | backend/app/services/access_reviews.py:562-575 | the loop equals its specification, uncaught errors included, when the overdue campaigns have reviewers |
| `ReviewService.Service.SweepScheduledCampaigns` | backend/app/services/access_reviews.py:661-708 | on all tables the loop equals its specification, uncaught errors included, and reports how many campaigns were started |
| `MockDirectory.IdsAreInjective` | backend/app/providers/mock.py:92 | the padded decimal ids differ for different numbers |
| `MockDirectory.NextIdIsFresh` | backend/app/providers/mock.py:89-94 | as long as nobody was deleted, the next id is new and ids are unique |
| `MockDirectory.NextIdInUseExactly` | backend/app/providers/mock.py:89-94 | whatever was deleted, the next id is in use if and only if some user holds the number of users plus one |
| `MockDirectory.DeletingReusesIdsExactly` | backend/app/providers/mock.py:44-49 | after a deletion the next id is in use if and only if a later user remains |
| `MockDirectory.MockProvider.SetUserEnabled` | backend/app/providers/mock.py:32-37 | the loop changes the status of the first user with that id and nothing else, or fails |
| `MockDirectory.MockProvider.CreateUser` | backend/app/providers/mock.py:89-94 | one user is appended, with the data asked for, or the email is taken and nothing changes |
| `MockDirectory.EmailTakenExactly` | backend/app/providers/mock.py:90 | an email is taken exactly when some user has it, written in any case |
| `MockDirectory.MockProvider.DeleteUser` | backend/app/providers/mock.py:44-49 | users with that id go; it fails exactly when there was none |
| `MockDirectory.KeepingExactly` | backend/app/providers/mock.py:44-49 | a deletion leaves every user with another id as often as before, and none with that id |
| `MockDirectory.LastChangeDecides` | backend/app/providers/mock.py:53-54 | after any calls of the membership methods, the last one about a user in a group decides whether the user is a member |
| `AccountAgreement.EnsurePrimaryAgrees` | backend/app/services/accounts.py:27-43 | mirroring the person's own identity keeps table and directories in agreement |
| `AccountAgreement.EnsurePrimaryExactly` | backend/app/services/accounts.py:27-43 | when a person gets an own account, and which row it is: a new one with their data, the old one brought up to date, or a deleted one left alone; no other row changes |
| `AccountAgreement.EnsureInAgrees` | backend/app/services/accounts.py:50-80 | provisioning in another directory keeps the agreement and uniqueness |
| `AccountAgreement.SwitchAgrees` | backend/app/services/accounts.py:103-119 | switching one account keeps the agreement, failing or not |
| `AccountAgreement.SwitchAllIsPerAccount` | backend/app/services/accounts.py:146-157 | the loop is a map: one result per account in order, each decided on its own, nothing else changed |
| `AccountRuns.RunKeepsAgreement` | backend/app/services/accounts.py:27-161 | over every run each account's status is the one its directory holds, (provider, external id) is unique, and no account changes hands |
| `AccountRuns.ReachableHubsAgree` | backend/app/services/accounts.py:27-161 | every hub reached from persons synced out of the in-memory directories satisfies the agreement |
| `AccountRuns.SetPersonIsPerAccount` | backend/app/services/accounts.py:127-161 | enabling or disabling a person is the per-account map over the unskipped accounts, for any set of failing calls |
| `AccountRuns.SetPersonRefusedExactly` | backend/app/services/accounts.py:131-134 | refused exactly for a person who does not exist and for disabling oneself, without any change |
| `AccountRuns.SetAccountExactly` | backend/app/services/accounts.py:103-124 | succeeds exactly when the account exists, its directory is real and knows it, and the call does not fail; then directory, row and (for the own identity) person have the status asked for and nothing else changes, otherwise nothing does and the error is this one |
| `AccountRuns.ResultsTellTheTruth` | backend/app/services/accounts.py:146-157 | ok means the directory shows the target status, also for skipped accounts; not ok means the account is where it was |
| `AccountRuns.PersonFollowsPrimary` | backend/app/services/accounts.py:103-161 | in every reachable hub the person ends with the status of the primary account, whatever fails or is skipped, and the directory shows it |
| `AccountRuns.EnsureInExactly` | backend/app/services/accounts.py:58-77 | when an account in another directory is answered, created or refused and with which error; what is created in the table and in the directory, and that the username is taken there from then on |
| `AccountRuns.EnsureIsIdempotent` | backend/app/services/accounts.py:50-62 | at any later time of any run ensuring again answers with the same account and writes to no directory |
| `AccountService.Service.EnsurePrimaryAccount` | backend/app/services/accounts.py:27-43 | the method equals its specification |
| `AccountService.Service.EnsureAccountInProvider` | backend/app/services/accounts.py:50-80 | the method equals its specification, directory included |
| `AccountService.Service.SetAccountEnabled` | backend/app/services/accounts.py:103-124 | the method equals its specification, directory included |
| `AccountService.Service.SetPersonEnabled` | backend/app/services/accounts.py:127-161 | the loop over the snapshot equals its specification |
| `ActiveDirectory.SwitchedKeepsOtherBits` | backend/app/providers/active_directory.py:329-344 | the written bitmask reads back as requested, keeps every other bit, and is written exactly when it differs |
| `ActiveDirectory.SamAccountNameIsLegal` | backend/app/providers/active_directory.py:73-78 | as much of the cleaned value as fits into 20 characters, less the dots at the end of that, or "user" when cleaning leaves nothing; so at most 20 characters, none forbidden, no final dot, and empty exactly when only dots were left |
| `ActiveDirectory.WithoutForbiddenExactly` | backend/app/providers/active_directory.py:77 | exactly the forbidden characters are dropped |
| `ActiveDirectory.StripExactly` | backend/app/providers/active_directory.py:77 | exactly the white space at both ends is dropped |
| `ActiveDirectory.NeverEnabledWithoutPassword` | backend/app/providers/active_directory.py:462-523 | in no state along the way, for any refusals and wherever the connection breaks, is the new account enabled without a password or another object touched |
| `ActiveDirectory.FailureLeavesNothingExactly` | backend/app/providers/active_directory.py:507-523 | a failing creation leaves the directory as it was, unless the object had been added and the clean-up was refused or never tried; what is left is disabled unless the connection broke at enabling or the read-back failed |
| `ActiveDirectory.SuccessReadsBackAsRequested` | backend/app/providers/active_directory.py:470-521 | a creation succeeds exactly when no conflict is found, the place is free, every call is accepted and the object is read back, a refused search counting as no conflict; then one object is added under its display name, with the names asked for and a password, and reads back ACTIVE exactly when asked |
| `ActiveDirectory.FailureTellsWhy` | backend/app/providers/active_directory.py:474-519 | which error a failing creation ends with, in both directions |
| `ActiveDirectory.NamesStayUniqueExactly` | backend/app/providers/active_directory.py:473-476 | account names and principal names stay unique, in any case of letters, exactly unless an object with a taken name is left, so always when the search was answered |
| `ActiveDirectory.ProvisionUser` | backend/app/providers/active_directory.py:462-523 | the calls in the program's order go through exactly the specified states |
| `ActiveDirectory.SetUserEnabled` | backend/app/providers/active_directory.py:329-349 | one bit is flipped by at most one write, nothing is written when nothing changes, a refusal changes nothing |
| `ActiveDirectory.SetMember` | backend/app/providers/active_directory.py:351-385 | an unknown group or user is an error when adding and success when removing; otherwise as specified |
| `ActiveDirectory.ChangeMemberExactly` | backend/app/providers/active_directory.py:358-382 | what each outcome says about the membership: success is right unless a needed change was refused with an "already done" code, a reported refusal changed nothing and tells the code |
| `ActiveDirectory.MembershipSimulatesMock` | backend/app/providers/active_directory.py:424-451 | for every sequence of activations and revocations the memberships equal those of the in-memory directory after the changes that were not refused, and all return True when all are accepted |
| `ActiveDirectory.LastChangeDecidesMembership` | backend/app/providers/active_directory.py:351-385 | after any such sequence a user is a member exactly if the last change about that user and group that was not refused was an activation, or none was and the user had been one |
| `Guid.TextReadsBack` | backend/app/providers/active_directory.py:81-89 | the text form of 16 bytes is 8-4-4-4-12 lower-case digits, group by group those of the bytes, and parses to the same bytes |
| `Guid.CleanedTextWritesFields` | backend/app/providers/active_directory.py:87-88 | the first three groups of a cleaned GUID write, as numbers, the first three fields of the raw bytes read with the least significant byte first; the last eight bytes are written as they are |
| `Guid.BothFormsCleanAlike` | backend/app/providers/active_directory.py:81-89 | raw bytes and braced text, however its letters are written, clean to the same canonical text |
| `Guid.EscapedReadsBack` | backend/app/providers/active_directory.py:92-96 | the escaped octets denote the bytes they were made from |
| `Guid.FilterDenotesId` | backend/app/providers/active_directory.py:92-96 | an id makes a filter exactly when it has 32 hexadecimal digits; the octets of the filter hold the numbers of its first three fields with the least significant byte first, and the last eight bytes as they are |
| `Guid.FilterFindsWhatWasRead` | backend/app/providers/active_directory.py:81-96 | the filter built from a cleaned GUID denotes exactly the stored bytes, for all 16-byte values |
| `Guid.IdsTellGuidsApart` | backend/app/providers/active_directory.py:81-89 | different stored GUIDs have different ids |
| `Timeline.ActivationTimeline` | backend/app/services/dashboard.py:66-101 | clamp(days, 1, 90) consecutive days ending today, each with the number of distinct users among that day's selected rows |
| `Timeline.SelectedExactly` | backend/app/services/dashboard.py:75-87 | which audit rows are selected, by their fields |
| `Timeline.NoSelectedRowIsLost` | backend/app/services/dashboard.py:74-101 | under one clock reading every selected row that is not in the future falls on a day of the series |
| `Timeline.LaterDaysAreComplete` | backend/app/services/dashboard.py:66-101 | every day but the first counts everybody active that day in the whole log |
| `Timeline.FirstDayIsCompleteExactly` | backend/app/services/dashboard.py:66-87 | the first day is complete if and only if nobody was active only before the cut |
| `Timeline.RowIsLostExactly` | backend/app/services/dashboard.py:74-97 | with two clock readings a selected row is missing from the series if and only if its day is one of the first days, as many as midnights passed in between |
| `FailingInputs.ScheduleHeldTwice` | backend/app/services/access_reviews.py:691-698 | a reachable store and a sweep that leaves two rows holding one schedule |
| `FailingInputs.NextCycleStranded` | backend/app/services/access_reviews.py:456-463 | a reachable store whose campaign repeats, and a closing that strands an open, empty campaign |
| `FailingInputs.AutoRevokedButLive` | backend/app/services/access_reviews.py:536-541 | a reachable store with an AUTO_REVOKED item whose access is live |
| `FailingInputs.OneHolderBlocksTheOthers` | backend/app/services/access_reviews.py:676-690 | one workflow-routed holder, open or closed, ends the sweep before a holder with a reviewer is served |
| `FailingInputs.LongOpenTimeBlocksTheOthers` | backend/app/services/access_reviews.py:679-690 | a closed holder with a reviewer whose next due date cannot be expressed ends the sweep before the next holder is served |
| `FailingInputs.LongPeriodEndsTheSweep` | backend/app/services/access_reviews.py:447-454 | an overdue campaign whose next cycle cannot be dated is closed without a child and leaves the next one overdue |
| `FailingInputs.TakenNameGivenTwice` | backend/app/providers/active_directory.py:300-304 | a refused search for a conflict, after which a second user gets an account name that is taken |
| `FailingInputs.LateSweepLeavesTheCycle` | backend/app/services/access_reviews.py:668-700 | in UTC a slot of 31 January served half a minute into February, with steps of two months: the next run is in February |
| `FailingInputs.SkippedDayShiftsTheCycle` | backend/app/services/access_reviews.py:87-94 | a zone and a month where the run after day 31 of December falls in January instead of February |

## Left out

- Workflow-routed campaigns: of the workflow route the model has the validators, edits, the error of deciding such an item by hand, the refused recurrence and the uncaught errors of the scheduled sweep. The workflow engine, which decides such items and closes such campaigns, is not part of this model, and the invariant over runs is stated for campaigns with a reviewer.
- ReviewService.Service.CreateCampaign: only requests that name a reviewer; one routed through a workflow starts an instance of the workflow engine per item.
- ReviewService.Service.CreateByHand: as for CreateCampaign.
- ReviewService.Service.CompleteCampaign: not for a campaign routed through a workflow, whose items are resolved by the workflow engine.
- ReviewService.Service.SweepOverdueCampaigns: as for CompleteCampaign.
- Notifications with a recipient, audit rows, names and descriptions, reports and display fields: side output without effect on the tables modelled.
- How inactive users are found, token checks, password generation, the Entra and Okta clients: network and foreign libraries; the first is the parameter `inactive` of a step, which answers or reports that it cannot tell, and raises nothing else.
- ReviewModel.Revoke: the contract of `revoke_assignment` (accepted with its cascade, or failing with an error of the service without a change), not its provider calls or other exceptions of theirs.
- Schedule.ComputeNextRun: instants have no upper limit; `Schedule.StaysInTheCalendar` shows that Python's is not reached from the clock. No wall-clock claim inside a daylight-saving gap; instants start on 2 January of year 1.
- Failures of the database itself, and the width of its columns.
- Atomic steps: a step of the model is not interleaved with another session's step, and takes one clock reading where the program takes several.
- The order in which a query returns rows without an ORDER BY: the model takes table order.
- Usernames and profiles of accounts: usernames are chosen by the caller, optional profile fields are left empty, and the joiner, leaver and sync services that also write accounts are not part of this model. The program builds a new in-memory directory for each call; here it is one lasting object.
- AccountRuns.RunKeepsAgreement: runs contain no `delete_user`; what deletion breaks is stated by `MockDirectory.DeletingReusesIdsExactly`.
- Case folding and white space beyond ASCII, escaping of relative distinguished names, optional attributes of a new user, and how a DN is searched: the Active Directory model takes the found object as given, and lets a search fail only where `create_user` looks up conflicts and reads back.
- ActiveDirectory.MembershipSimulatesMock: GROUP requests on groups and users that exist; other resource types are refused before any call.
- Guid.TextReadsBack: `uuid.UUID` also accepts a `urn:uuid:` prefix, which is not modelled.
- Application-role assignments and the assignment map of the in-memory directory, user segments of the dashboard, owner suggestions: single-branch bookkeeping.
