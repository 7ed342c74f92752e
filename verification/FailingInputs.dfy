/** Inputs at which a promise of the program or of its documentation fails. The exact conditions stand with the
    models. */
module FailingInputs {
  import opened Wrappers
  import opened Calendar
  import opened Schedule
  import opened ReviewRows
  import opened ReviewModel
  import opened ReviewInvariant
  import opened ReviewRuns
  import opened ReviewSnapshot
  import opened ReviewSweeps
  import opened ReviewCycles
  import M = MockDirectory
  import A = ActiveDirectory
  import T = Timeline

  const UTC: Zone := Offsets(t => 0, t => 0)
  const MORNING := TimeOfDay(9, 0)

  /** Somebody with access to a group, and no campaign yet. */
  const BEFORE := Store([], [], [Assignment(0, Target(GROUP, 1), InForce, None, None, false, false)],
                        map[0 := User(NORMAL, None)], {})

  /** The directory refuses every revoke; whether it can tell that nobody is inactive is `known`. */
  function World(now: Clock, known: bool): Env {
    Env(now, UTC, a => Refuses, days => if known then Some({}) else None)
  }

  const INACTIVE := Scope(InactiveUsers, None, None, None, None, None, Some(90))

  const SCHEDULED: ReviewerForm := Form(INACTIVE, Some(0), None, None, None, 7 * DAY, RevokeAccess, None, Some(1),
                                        Some(MORNING), None, None)
  const REPEATING: ReviewerForm := Form(INACTIVE, Some(0), None, None, None, 7 * DAY, RevokeAccess, Some(30), None,
                                        None, None, None)
  const ONCE: ReviewerForm := Form(EVERYTHING, Some(0), None, None, None, 7 * DAY, RevokeAccess, None, None, None, None,
                                   None)

  // ----- the review engine

  /** Creating a campaign over inactive users while nobody is inactive stores it without items. */
  lemma EmptyReview(f: ReviewerForm, env: Env)
    requires f.reviewer == Some(0) && f.fallback.None? && f.scope == INACTIVE && env.inactive(90) == Some({})
    ensures var s := Create(BEFORE, f, env).s; s == BEFORE.(campaigns := [NewRow(f, env)]) && Inv(s)
  {
    NobodyInactive(env);
    assert BEFORE.items + [] == [];
    hide RowShape, PeopleExist, NewRow, Matching, Chained, Settled, Live;
    assert Inv(BEFORE) by {
      EmptyTablesKeepInv(BEFORE);
    }
    CreateKeepsInv(BEFORE, f, env);
  }

  lemma EmptyTablesKeepInv(s: Store)
    requires s.campaigns == [] && s.items == []
    ensures Inv(s)
  {
  }

  lemma NobodyInactive(env: Env)
    requires env.inactive(90) == Some({})
    ensures Matching(BEFORE, INACTIVE, env) == Some([])
  {
    MatchingExact(BEFORE, INACTIVE, env);
    hide Matching;
    SomeMember(Matching(BEFORE, INACTIVE, env).value);
  }

  lemma SomeMember(ids: seq<AssignmentId>)
    ensures ids == [] || exists a :: a in ids
  {
    if ids != [] {
      assert ids[0] in ids;
    }
  }

  lemma OneStep(f: ReviewerForm, env: Env)
    ensures Reachable(Create(BEFORE, f, env).s)
  {
    hide Create;
    var steps := [CreateStep(f, env)];
    assert steps[..0] == [];
    assert Run(BEFORE, []) == BEFORE;
    assert Run(BEFORE, steps) == Create(BEFORE, f, env).s;
  }

  lemma TwoSteps(f: ReviewerForm, env: Env)
    ensures Reachable(Complete(Create(BEFORE, f, env).s, 0, env).s)
  {
    hide Create, Complete;
    var steps := [CreateStep(f, env), CompleteStep(0, env)];
    assert steps[..1] == [CreateStep(f, env)] && steps[..1][..0] == [];
    assert Run(BEFORE, []) == BEFORE;
    assert Run(BEFORE, steps[..1]) == Create(BEFORE, f, env).s;
    assert Run(BEFORE, steps) == Complete(Create(BEFORE, f, env).s, 0, env).s;
  }

  /** Closing a campaign without items that does not repeat only closes its row. */
  lemma EmptyReviewClosed(s: Store, env: Env)
    requires WellFormed(s) && |s.campaigns| == 1 && s.items == []
    requires s.campaigns[0].status.Active? && s.campaigns[0].frequencyDays.None?
    ensures Complete(s, 0, env).s
            == s.(campaigns := [s.campaigns[0].(status := Completed, completedAt := Some(env.now))])
  {
    hide RowShape, PeopleExist;
  }

  /** A closed review of inactive users that holds a schedule. */
  predicate IsClosedReview(s: Store) {
    && s.assignments == BEFORE.assignments && |s.campaigns| == 1
    && var row := s.campaigns[0];
    && row.status.Completed? && row.workflow.None? && row.scope == INACTIVE && row.scheduleDay == Some(1)
    && row.nextRunAt.Some? && DAY <= row.nextRunAt.value < 1000 * DAY && row.scheduleDueDays == Some(6)
  }

  lemma ClosedReview(env: Env) returns (s: Store)
    requires env.inactive(90) == Some({}) && env.now == DAY
    ensures Reachable(s) && WellFormed(s) && IsClosedReview(s)
  {
    EmptyReview(SCHEDULED, env);
    TwoSteps(SCHEDULED, env);
    var first := Create(BEFORE, SCHEDULED, env).s;
    s := Complete(first, 0, env).s;
    ScheduledRow(env);
    hide Reachable, NextRun, Create, Complete, RowShape, PeopleExist, NewRow, ValidForm, World;
    assert first.campaigns[0] == NewRow(SCHEDULED, env);
    EmptyReviewClosed(first, env);
  }

  lemma ScheduledRow(env: Env)
    requires env.now == DAY
    ensures var row := NewRow(SCHEDULED, env);
            && row.status.Active? && row.workflow.None? && row.scope == INACTIVE && row.scheduleDay == Some(1)
            && row.nextRunAt.Some? && DAY <= row.nextRunAt.value < 1000 * DAY && row.frequencyDays.None?
            && row.scheduleDueDays == Some(6)
  {
    OpenForSixDays(env);
    hide NewRow, NextRun, ValidForm;
    NextRunIsNear(env.zone, TimingOf(NewRow(SCHEDULED, env)), env.now);
  }

  lemma OpenForSixDays(env: Env)
    requires env.now == DAY
    ensures NewRow(SCHEDULED, env).scheduleDueDays == Some(6)
  {
    hide NextRun, RowShape;
    assert (SCHEDULED.dueAt - env.now) / DAY == 6;
  }

  predicate HeldTwice(row: Campaign, rows: seq<Campaign>) {
    && |rows| == 2 && rows[0] == row.(nextRunAt := rows[0].nextRunAt) && rows[1].parent.None?
    && rows[0].nextRunAt.Some? && rows[1].nextRunAt == rows[0].nextRunAt
    && rows[1].scheduleDay == row.scheduleDay && rows[1].scheduleTime == row.scheduleTime
  }

  /** A reachable store with one schedule, and a sweep that leaves two rows holding it: the directory could tell who is
      inactive when the first campaign was created, and cannot when its next slot arrives. */
  lemma ScheduleHeldTwice() returns (s: Store, env: Env)
    ensures Reachable(s) && WellFormed(s) && |s.campaigns| == 1 && s.campaigns[0].nextRunAt.Some?
    ensures HeldTwice(s.campaigns[0], SweepScheduled(s, env).s.campaigns)
  {
    s := ClosedReview(World(DAY, true));
    env := World(s.campaigns[0].nextRunAt.value, false);
    hide Reachable, RowShape, PeopleExist, StartNext, StartRaises, Following;
    assert s.assignments[0].status.Live() && CannotTell(s, INACTIVE, env);
    hide CannotTell;
    StartsOrStrandsExactly(s, 0, env);
    StartNextEffect(s, 0, env);
    OnlyHolder(s, env);
  }

  lemma OnlyHolder(s: Store, env: Env)
    requires WellFormed(s) && |s.campaigns| == 1 && Due(s.campaigns[0], env.now) && StartNext(s, 0, env).Kept?
    ensures SweepScheduled(s, env).s == StartNext(s, 0, env).s
  {
    hide RowShape, PeopleExist, StartNext;
    var p := r => Due(r, env.now);
    assert IdsBelow(s.campaigns, p, 0) == [];
    assert IdsBelow(s.campaigns, p, 1) == [0];
    assert [0][1..] == [];
  }

  /** A campaign that repeats after completion, whose next cycle is stranded: an open campaign of its own, with
      nothing to review although somebody holds live access. */
  lemma NextCycleStranded() returns (s: Store, env: Env)
    ensures Reachable(s) && |s.campaigns| == 1
    ensures s.campaigns[0].status.Active? && s.campaigns[0].frequencyDays == Some(30)
    ensures var t := Complete(s, 0, env).s;
            && |t.campaigns| == 2 && t.campaigns[1].status.Active? && t.campaigns[1].parent.None?
            && t.campaigns[1].scope == s.campaigns[0].scope && t.items == []
  {
    var before := World(DAY, true);
    EmptyReview(REPEATING, before);
    OneStep(REPEATING, before);
    s := Create(BEFORE, REPEATING, before).s;
    env := World(DAY, false);
    hide Reachable, Create, TryCreate, Complete, NextRun;
    CompleteEffect(s, 0, env);
    CompletingKeepsLive(s, env);
    assert s.assignments[0].status.Live() && CannotTell(Complete(s, 0, env).s, INACTIVE, env);
  }

  lemma CompletingKeepsLive(s: Store, env: Env)
    requires WellFormed(s) && |s.campaigns| == 1 && s.campaigns[0].status.Active? && s.items == []
    ensures Complete(s, 0, env).s.assignments == s.assignments
  {
    hide RowShape, PeopleExist, Spawn;
    ClosingAddsRowsOnly(Finish(s, 0, env), 0, env);
  }

  /** Reviewing everything: the one live assignment is an item. */
  lemma FullReview(env: Env)
    ensures var s := Create(BEFORE, ONCE, env).s;
            && Inv(s) && s.assignments == BEFORE.assignments && |s.campaigns| == 1 && s.campaigns[0].status.Active?
            && s.campaigns[0].onNoResponse.RevokeAccess? && |s.items| >= 1 && s.items[0] == NewItem(BEFORE, 0, 0)
  {
    MatchingExact(BEFORE, EVERYTHING, env);
    CreateKeepsInv(BEFORE, ONCE, env);
    hide Matching, RowShape, PeopleExist, NextRun, Chained, Settled, Live;
    var ids := Matching(BEFORE, EVERYTHING, env).value;
    assert InScope(BEFORE, EVERYTHING, env, BEFORE.assignments[0]) && 0 in ids;
    assert ids[0] in ids;
  }

  /** A reachable store with an AUTO_REVOKED item whose access is still live: the revoke was refused. */
  lemma AutoRevokedButLive() returns (t: Store)
    ensures Reachable(t) && |t.items| >= 1 && t.items[0].decision.AutoRevoked?
    ensures t.items[0].assignment < |t.assignments| && t.assignments[t.items[0].assignment].status.Live()
  {
    var env := World(DAY, true);
    var s := Create(BEFORE, ONCE, env).s;
    TwoSteps(ONCE, env);
    FullReview(env);
    t := Complete(s, 0, env).s;
    hide Reachable, RowShape, PeopleExist, Chained, Settled, Live, Create, Complete, TakenDown, PendingBelow;
    ClosingDecidesEverything(s, 0, 0, env);
    RefusedRevokesChangeNothing(s, env);
    CompleteKeepsInv(s, 0, env);
    assert ItemEvolves(s.items[0], t.items[0]);
  }

  lemma RefusedRevokesChangeNothing(s: Store, env: Env)
    requires Inv(s) && |s.campaigns| == 1 && s.campaigns[0].status.Active? && forall a :: env.revoke(a).Refuses?
    ensures Complete(s, 0, env).s.assignments == s.assignments
  {
    ForcedClosing(s, 0, env);
    hide RowShape, PeopleExist, Complete;
    NothingTaken(s, PendingBelow(s.items, 0, |s.items|), s.campaigns[0].onNoResponse, env);
  }

  lemma {:induction false} NothingTaken(s: Store, ids: seq<ItemId>, keep: NoResponse, env: Env)
    requires WellFormed(s) && InTables(s, ids) && forall a :: env.revoke(a).Refuses?
    ensures CloseItems(s, ids, keep, env).assignments == s.assignments
    decreases |ids|
  {
    hide RowShape, PeopleExist;
    if ids != [] {
      NothingTaken(CloseItem(s, ids[0], keep, env), ids[1..], keep, env);
    }
  }

  function Scheduled(status: Status, workflow: Option<WorkflowId>, now: int): Campaign {
    Campaign(EVERYTHING, if workflow.Some? then None else Some(0), None, None, workflow, status, now + DAY,
             RevokeAccess, None, Some(1), Some(MORNING), Some(1), Some(7), Some(now), None, 0, None)
  }

  /** One due holder that is routed through a workflow, open or closed, ends the sweep before the next holder, which has
      a reviewer, is served; nothing changes, so both are due at the next sweep again. */
  lemma OneHolderBlocksTheOthers(status: Status, now: Clock)
    ensures var s := BEFORE.(campaigns := [Scheduled(status, Some(0), now), Scheduled(Completed, None, now)]);
            WellFormed(s) && SweepScheduled(s, World(now, true)) == Sweep(s, 0, true)
    ensures Due(Scheduled(Completed, None, now), now)
  {
    var s := BEFORE.(campaigns := [Scheduled(status, Some(0), now), Scheduled(Completed, None, now)]);
    assert WellFormed(s);
    hide RowShape, PeopleExist;
    BlockedFirst(s, 0, World(now, true));
  }

  /** So does a closed holder with a reviewer whose next campaign would stay open past year 9999. */
  lemma LongOpenTimeBlocksTheOthers(now: Clock)
    ensures var long := Scheduled(Completed, None, now).(scheduleDueDays := Some(4_000_000));
            var s := BEFORE.(campaigns := [long, Scheduled(Completed, None, now)]);
            WellFormed(s) && SweepScheduled(s, World(now, true)) == Sweep(s, 0, true)
    ensures Due(Scheduled(Completed, None, now), now)
  {
    var long := Scheduled(Completed, None, now).(scheduleDueDays := Some(4_000_000));
    var s := BEFORE.(campaigns := [long, Scheduled(Completed, None, now)]);
    assert WellFormed(s);
    hide RowShape, PeopleExist;
    BlockedFirst(s, 0, World(now, true));
  }

  function Unscheduled(frequencyDays: Option<int>, now: int): Campaign {
    Campaign(EVERYTHING, Some(0), None, None, None, Active, now, KeepAccess, frequencyDays, None, None, None, None,
             None, None, 0, None)
  }

  /** A campaign whose next cycle would be due past year 9999 ends the overdue sweep: it is closed without a child, and
      the overdue campaign after it stays open. */
  lemma LongPeriodEndsTheSweep(now: Clock)
    ensures var s := BEFORE.(campaigns := [Unscheduled(Some(4_000_000), now), Unscheduled(None, now)]);
            var r := SweepOverdue(s, World(now, true));
            && Inv(s) && r.crashed && |r.s.campaigns| >= 2
            && r.s.campaigns[0].status.Completed? && Overdue(r.s.campaigns[1], now) && !HasChild(r.s, 0)
  {
    var s := BEFORE.(campaigns := [Unscheduled(Some(4_000_000), now), Unscheduled(None, now)]);
    var env := World(now, true);
    assert Inv(s);
    assert EndsSweep(s.campaigns[0], now) && HeldUp(s.campaigns, 1, now);
    assert !HeldUp(s.campaigns, 0, now);
    hide RowShape, PeopleExist, Chained, Settled, Live, HeldUp, EndsSweep, ClosedMany, CannotTell;
    hide ChildrenAreNextCycles;
    OverdueSweepClosesExactly(s, env);
    SweepKeepsCampaigns(s, env);
    FirstGetsNoChild(s, env);
  }

  lemma FirstGetsNoChild(s: Store, env: Env)
    requires Inv(s) && |s.campaigns| > 0 && EndsSweep(s.campaigns[0], env.now)
    ensures !HasChild(SweepOverdue(s, env).s, 0)
  {
    hide RowShape, PeopleExist, Chained, Settled, Live, SweepOverdue, CannotTell, ChildrenAreNextCycles, HasChild;
    assert 0 in OverdueIds(s, env.now);
    var j :| 0 <= j < |OverdueIds(s, env.now)| && OverdueIds(s, env.now)[j] == 0;
    SweepStartsOneChildEach(s, env, 0, j);
  }

  lemma SweepKeepsCampaigns(s: Store, env: Env)
    requires Inv(s)
    ensures |s.campaigns| <= |SweepOverdue(s, env).s.campaigns|
  {
    hide RowShape, PeopleExist, Chained, Settled, Live, CloseUntil;
    CloseUntilKeepsInv(s, OverdueIds(s, env.now), env);
  }

  // ----- the calendar

  const LAST_MINUTE: Timing := Recurring(31, TimeOfDay(23, 59), 2)

  /** A closed campaign on day 31 at 23:59 of every second month, due in this month. */
  function DueIn(month: nat): Campaign {
    Campaign(EVERYTHING, Some(0), None, None, None, Completed, 0, RevokeAccess, None, Some(31), Some(TimeOfDay(23, 59)),
             Some(2), Some(7), Some(SlotUtc(UTC, LAST_MINUTE, month)), None, 0, None)
  }

  /** Serving the only row starts the next campaign, which runs next at this time. */
  predicate HandsOver(s: Store, env: Env, next: int)
    requires WellFormed(s) && |s.campaigns| == 1 && s.campaigns[0].scheduleDay.Some?
  {
    var x := StartNext(s, 0, env);
    x.Started? && |x.s.campaigns| == 2 && x.s.campaigns[1].nextRunAt == Some(next)
  }

  /** The schedule of a January, served half a minute after its month: the next campaign runs next on the last day of
      February, not of March. */
  lemma LateSweepLeavesTheCycle(january: nat, now: Clock) returns (s: Store)
    requires MonthInYear(january) == 1 && now == MonthStart(january + 1) * DAY + 30 * SECOND
    ensures s == BEFORE.(campaigns := [DueIn(january)]) && WellFormed(s) && Due(DueIn(january), now)
    ensures HandsOver(s, World(now, true), SlotUtc(UTC, LAST_MINUTE, january + 1))
    ensures SlotUtc(UTC, LAST_MINUTE, january + 1) < SlotUtc(UTC, LAST_MINUTE, january + 2)
  {
    hide MonthStart, SlotUtc;
    s := BEFORE.(campaigns := [DueIn(january)]);
    NextAfterJanuary(january, now);
    assert WellFormed(s);
    ServedAsExpected(s, World(now, true), LAST_MINUTE);
  }

  lemma ServedAsExpected(s: Store, env: Env, g: Timing)
    requires WellFormed(s) && |s.campaigns| == 1 && Due(s.campaigns[0], env.now) && TimingOf(s.campaigns[0]) == g
    requires var r := s.campaigns[0];
             r.status.Completed? && r.workflow.None? && r.scope == EVERYTHING && r.scheduleDueDays == Some(7)
    ensures HandsOver(s, env, NextRun(env.zone, g, env.now))
  {
    StartsOrStrandsExactly(s, 0, env);
    StartNextEffect(s, 0, env);
    hide RowShape, PeopleExist, StartNext, NextRun;
  }

  /** Every slot of that schedule reads back into its own month. */
  lemma UtcKeepsMonths(m: nat)
    ensures KeepsMonth(UTC, LAST_MINUTE, m)
  {
    UtcIsFixed();
    FixedZoneKeepsMonths(UTC, LAST_MINUTE, m);
  }

  lemma UtcIsFixed()
    ensures UTC.Fixed(0)
  {
  }

  lemma UtcSlot(m: nat)
    ensures SlotUtc(UTC, LAST_MINUTE, m) == Slot(LAST_MINUTE, m)
  {
    hide Slot;
  }

  lemma SlotLateInItsMonth(m: nat)
    ensures MonthStart(m) * DAY + DAY < Slot(LAST_MINUTE, m) < MonthStart(m + 1) * DAY
  {
    SlotInMonth(LAST_MINUTE, m);
    hide MonthStart;
    assert 28 <= MonthLength(m);
  }

  lemma NextAfterJanuary(january: nat, now: Clock)
    requires now == MonthStart(january + 1) * DAY + 30 * SECOND
    ensures SlotUtc(UTC, LAST_MINUTE, january) <= now
    ensures NextRun(UTC, LAST_MINUTE, now) == SlotUtc(UTC, LAST_MINUTE, january + 1)
    ensures SlotUtc(UTC, LAST_MINUTE, january + 1) < SlotUtc(UTC, LAST_MINUTE, january + 2)
  {
    UtcSlot(january);
    UtcSlot(january + 1);
    SlotLateInItsMonth(january);
    SlotLateInItsMonth(january + 1);
    UtcSlotsIncrease(UTC, LAST_MINUTE, january + 1, january + 2);
    HalfAMinuteIn(january + 1, now);
    hide MonthStart, MonthOf, SlotUtc, Slot, NextRun;
    SlotStillAhead(now, january + 1);
  }

  lemma SlotStillAhead(now: Instant, m: nat)
    requires MonthOf(now) == m && now < SlotUtc(UTC, LAST_MINUTE, m)
    ensures NextRun(UTC, LAST_MINUTE, now) == SlotUtc(UTC, LAST_MINUTE, m)
  {
    hide MonthOf, SlotUtc, FirstSlotMonth;
    assert UTC.ToLocal(now) == now;
    SearchStep(UTC, LAST_MINUTE, now, m);
  }

  lemma HalfAMinuteIn(m: nat, now: int)
    requires now == MonthStart(m) * DAY + 30 * SECOND
    ensures MonthOf(now) == m
  {
    MonthAfter(m);
    assert 28 <= MonthLength(m);
    hide MonthStart, MonthLength;
    MonthOfDayUnique(MonthStart(m), m);
    assert now / DAY == MonthStart(m);
  }

  const SKIPPED := 728292 * DAY + 10 * HOUR

  /** Local time as Kiritimati kept it at the end of 1994: ten hours behind UTC until 31 December was skipped, fourteen
      hours ahead from then on. A wall-clock time on the skipped day counts with the offset before it. */
  const KIRITIMATI: Zone := Offsets(t => if t < SKIPPED then -10 * HOUR else 14 * HOUR,
                                    wall => if wall < 728293 * DAY then -10 * HOUR else 14 * HOUR)

  lemma EndOf1994(december: nat)
    requires december == 12 * 1993 + 11
    ensures MonthStart(december) == 728262 && MonthStart(december + 1) == 728293 && MonthStart(december + 2) == 728324
    ensures MonthLength(december) == 31
  {
    var y := 1994;
    YearStartClosedForm(y);
    MonthPosition(y - 1, 11);
    MonthPosition(y, 0);
    assert december + 1 == 12 * y;
    hide MonthStart;
    MonthAfter(december);
    MonthAfter(december + 1);
  }

  lemma MonthAfter(m: nat)
    ensures MonthStart(m + 1) == MonthStart(m) + MonthLength(m)
  {
  }

  const ENDS: Timing := Recurring(31, MORNING, 2)

  /** The slot of December 1994 in UTC, and the local time it is read back as. */
  lemma SlotOnTheSkippedDay(december: nat)
    requires december == 12 * 1993 + 11
    ensures SlotUtc(KIRITIMATI, ENDS, december) == 728292 * DAY + 19 * HOUR
    ensures KIRITIMATI.ToLocal(SlotUtc(KIRITIMATI, ENDS, december)) == 728293 * DAY + 9 * HOUR
  {
    EndOf1994(december);
    hide MonthStart, MonthLength;
    assert Slot(ENDS, december) == 728292 * DAY + 9 * HOUR;
  }

  /** Day 31 every two months: the run of 31 December 1994 is followed by one on 31 January 1995, not by the last day of
      February. */
  lemma SkippedDayShiftsTheCycle(december: nat)
    requires december == 12 * 1993 + 11
    ensures var after := SlotUtc(KIRITIMATI, ENDS, december);
            && DAY <= after && !KeepsMonth(KIRITIMATI, ENDS, december)
            && NextRun(KIRITIMATI, ENDS, after) == SlotUtc(KIRITIMATI, ENDS, december + 1)
            && NextRun(KIRITIMATI, ENDS, after) != SlotUtc(KIRITIMATI, ENDS, december + 2)
  {
    SlotOnTheSkippedDay(december);
    hide MonthStart, MonthLength, SlotUtc, MonthOf, FirstSlotMonth;
    var after := SlotUtc(KIRITIMATI, ENDS, december);
    LocalMonth(december, KIRITIMATI.ToLocal(after));
    UtcSlotsIncrease(KIRITIMATI, ENDS, december, december + 1);
    SearchStep(KIRITIMATI, ENDS, after, december + 1);
    StepKeptExactly(KIRITIMATI, ENDS, december);
  }

  lemma LocalMonth(december: nat, local: int)
    requires december == 12 * 1993 + 11 && local == 728293 * DAY + 9 * HOUR
    ensures MonthOf(local) == december + 1
  {
    EndOf1994(december);
    hide MonthStart, MonthLength;
    MonthOfDayUnique(local / DAY, december + 1);
  }

  // ----- the directories

  /** The two users a new in-memory directory has: once the first is deleted, a new user gets the id of the second. */
  lemma DeletedUserIdReused(users: seq<M.DirectoryUser>, request: M.NewUser)
    requires |users| == 2 && users[0].externalId == "user-001" && users[1].externalId == "user-002"
    ensures var rest := M.Without(users, 0); M.Hired(rest, request).externalId == "user-002" == rest[0].externalId
  {
    M.FirstIds();
  }

  /** A connection that breaks while the password is set leaves an account behind, although nothing was refused. */
  lemma AccountLeftBehind(r: A.Request, base: string, guid: A.Guid)
    ensures var on := A.Replies(A.Answered, A.Accepted, A.Lost(false), A.Accepted, A.Accepted, false);
            var c := A.CreateUser(map[], r, base, guid, on);
            c.result == Failure(A.ConnectionLost) && A.Final(map[], c) == map[A.UserDn(r, base) := A.NewEntry(r, guid)]
  {
    hide A.UserDn, A.SamAccountName;
  }

  /** When the search for a conflict is refused, a second user is created with an account name that is taken. */
  lemma TakenNameGivenTwice(r: A.Request, base: string, guid: A.Guid)
    ensures var sam := A.SamAccountName(r.nickname);
            var d: A.Directory := map["" := A.UserEntry("g", sam, "first@domain", "First", 0x200, true)];
            var on := A.Replies(A.Unanswered, A.Accepted, A.Accepted, A.Accepted, A.Accepted, false);
            var c := A.CreateUser(d, r, base, guid, on);
            A.UniqueNames(d) && c.result.Success? && !A.UniqueNames(A.Final(d, c))
  {
    var sam := A.SamAccountName(r.nickname);
    var d: A.Directory := map["" := A.UserEntry("g", sam, "first@domain", "First", 0x200, true)];
    var on := A.Replies(A.Unanswered, A.Accepted, A.Accepted, A.Accepted, A.Accepted, false);
    assert A.UserDn(r, base) !in d;
    A.SuccessReadsBackAsRequested(d, r, base, guid, on);
    A.NamesStayUniqueExactly(d, r, base, guid, on);
    hide A.SamAccountName, A.UserDn, A.CreateUser, M.Lower;
    assert d[""].sam == sam;
    assert A.UserDn(r, base) in A.Final(d, A.CreateUser(d, r, base, guid, on));
  }

  /** A nickname of dots makes an empty account name. */
  lemma NamelessAccount()
    ensures A.SamAccountName("...") == ""
  {
    hide A.SamAccountName;
    A.SamAccountNameIsLegal("...");
    assert A.WithoutForbidden(".") == ".";
    assert "..."[1..][1..] == "." && "..."[1..] == "..";
    assert A.WithoutForbidden("..") == "..";
    assert A.WithoutForbidden("...") == "...";
    assert A.Clean("...") == "...";
  }

  /** A needed addition refused with "already exists" is reported as a success. */
  lemma RefusedButReportedDone(group: A.Dn, user: A.Dn, name: string)
    ensures var d: A.Directory := map[group := A.GroupEntry("g", name, {})];
            A.ChangeMember(d, group, user, M.Activate, A.Answer(A.NoSuchAttribute, A.Refused(A.EntryAlreadyExists)))
            == (d, Success(true))
  {
  }

  // ----- the timeline

  /** An activation on the first day before the present time of day is missing from that day's point. */
  lemma FirstDayMissesTheMorning()
    ensures var early := T.LogRow(DAY, "ASSIGNMENT_ACTIVATED", "SUCCESS", "ASSIGNMENT", 0, "ROLE", true);
            var since := T.Since(DAY + 1, 1);
            && early.timestamp / DAY == T.DayOf(since)
            && T.ActiveOn([early], T.DayOf(since)) == {0} && T.UsersOn(T.Selected([early], since), T.DayOf(since)) == {}
  {
  }
}
