/** The rows of an access review: the request forms with their validators
    (backend/app/schemas/access_reviews.py) and the tables a review reads and writes
    (backend/app/models/models.py). A row's id is its position in its table; rows are never deleted. */
module ReviewRows {
  import opened Wrappers
  import opened Schedule

  type UserId = nat
  type ResourceId = nat
  type WorkflowId = nat
  type CampaignId = nat
  type ItemId = nat
  type AssignmentId = nat

  datatype ResourceType = GROUP | ROLE | APPLICATION | PACKAGE | BUSINESS_ROLE

  datatype Target = Target(kind: ResourceType, id: ResourceId)

  datatype AccountType = NORMAL | PU | TU

  datatype User = User(accountType: AccountType, linkedTo: Option<UserId>)

  /** PENDING_APPROVAL, ELIGIBLE, ACTIVE, SCHEDULED, REJECTED, EXPIRED and REVOKED. */
  datatype AssignmentStatus =
    | AwaitingApproval | Eligible | InForce | Scheduled | Rejected | Expired | Withdrawn
  {
    predicate Live() { Eligible? || InForce? }
    predicate Final() { Rejected? || Expired? || Withdrawn? }
  }

  /** An access assignment, with the package and business role it came from and whether a birthright policy or a
      group-role mapping granted it. */
  datatype Assignment = Assignment(user: UserId, resource: Target, status: AssignmentStatus,
                                   package: Option<ResourceId>, businessRole: Option<ResourceId>,
                                   byPolicy: bool, byMapping: bool)

  datatype ScopeType =
    | All | OfResourceType | SpecificResource | MultipleResources | OneUser | OfAccountType | InactiveUsers | Mover

  datatype Scope = Scope(kind: ScopeType, resourceType: Option<ResourceType>, resourceId: Option<ResourceId>,
                         targets: Option<seq<Target>>, user: Option<UserId>, accountType: Option<AccountType>,
                         inactiveDays: Option<int>)

  datatype NoResponse = RevokeAccess | KeepAccess

  datatype Form = Form(scope: Scope, reviewer: Option<UserId>, fallback: Option<UserId>, unlockHours: Option<int>,
                       workflow: Option<WorkflowId>, dueAt: int, onNoResponse: NoResponse,
                       frequencyDays: Option<int>, scheduleDay: Option<int>, scheduleTime: Option<TimeOfDay>,
                       scheduleEvery: Option<int>, scheduleDueDays: Option<int>)

  predicate Positive(x: Option<int>) { x.Some? ==> 0 < x.value }

  predicate ValidScope(c: Scope) {
    && Positive(c.inactiveDays)
    && (c.accountType.Some? ==> c.accountType.value != NORMAL)
    && (c.kind.OfResourceType? ==> c.resourceType.Some?)
    && (c.kind.SpecificResource? ==> c.resourceType.Some? && c.resourceId.Some?)
    && (c.kind.MultipleResources? ==> c.targets.Some? && c.targets.value != [])
    && (c.kind.OneUser? || c.kind.Mover? ==> c.user.Some?)
    && (c.kind.OfAccountType? ==> c.accountType.Some?)
    && (c.kind.InactiveUsers? ==> c.inactiveDays.Some?)
  }

  predicate ValidTiming(day: Option<int>, time: Option<TimeOfDay>, every: Option<int>, dueDays: Option<int>) {
    && (day.Some? ==> 1 <= day.value <= 31)
    && (time.Some? ==> time.value.Valid())
    && (every.Some? ==> 1 <= every.value <= 12)
    && Positive(dueDays)
  }

  predicate ValidRouting(reviewer: Option<UserId>, workflow: Option<WorkflowId>, fallback: Option<UserId>,
                         unlockHours: Option<int>) {
    && reviewer.None? != workflow.None?
    && (workflow.Some? ==> fallback.None? && unlockHours.None?)
  }

  /** The field ranges and the three validators of AccessReviewCampaignCreate, for a due date that can be expressed. */
  predicate ValidForm(f: Form) {
    && f.dueAt <= LAST
    && Positive(f.unlockHours) && Positive(f.frequencyDays)
    && ValidTiming(f.scheduleDay, f.scheduleTime, f.scheduleEvery, f.scheduleDueDays)
    && f.scheduleDay.Some? == f.scheduleTime.Some?
    && !(f.scheduleDay.Some? && f.frequencyDays.Some?)
    && ValidRouting(f.reviewer, f.workflow, f.fallback, f.unlockHours)
    && ValidScope(f.scope)
  }

  const EVERYTHING := Scope(All, None, None, None, None, None, None)

  /** A request that passed validation and names a reviewer rather than a workflow. */
  type ReviewerForm = f: Form | ValidForm(f) && f.workflow.None?
    witness Form(EVERYTHING, Some(0), None, None, None, 0, RevokeAccess, None, None, None, None, None)

  datatype Edit = Edit(reviewer: Option<UserId>, fallback: Option<UserId>, clearFallback: bool,
                       unlockHours: Option<int>, dueAt: Option<int>, frequencyDays: Option<int>,
                       clearFrequency: bool, scheduleDay: Option<int>, scheduleTime: Option<TimeOfDay>,
                       scheduleEvery: Option<int>, scheduleDueDays: Option<int>, clearSchedule: bool)

  /** An edit within the field ranges of AccessReviewCampaignUpdate. */
  type EditForm = e: Edit |
    && Positive(e.unlockHours) && Positive(e.frequencyDays)
    && ValidTiming(e.scheduleDay, e.scheduleTime, e.scheduleEvery, e.scheduleDueDays)
    witness Edit(None, None, false, None, None, None, false, None, None, None, None, false)

  datatype Status = Active | Completed

  datatype Campaign = Campaign(scope: Scope, reviewer: Option<UserId>, fallback: Option<UserId>,
                               unlockHours: Option<int>, workflow: Option<WorkflowId>, status: Status, dueAt: int,
                               onNoResponse: NoResponse, frequencyDays: Option<int>, scheduleDay: Option<int>,
                               scheduleTime: Option<TimeOfDay>, scheduleEvery: Option<int>,
                               scheduleDueDays: Option<int>, nextRunAt: Option<int>, parent: Option<CampaignId>,
                               createdAt: int, completedAt: Option<int>)

  datatype Decision = Pending | Approved | Revoked | AutoRevoked

  /** One assignment under review; the user, resource and status are copies made when the campaign started. */
  datatype Item = Item(campaign: CampaignId, assignment: AssignmentId, user: UserId, resource: Target,
                       statusAtSnapshot: AssignmentStatus, decision: Decision, decidedBy: Option<UserId>,
                       decidedAt: Option<int>)

  /** The targets are stored only for a scope of several resources. */
  function StoredScope(c: Scope): Scope {
    c.(targets := if c.kind.MultipleResources? then c.targets else None)
  }

  /** What every stored campaign satisfies: it was built from a validated form, and its two recurrence modes are
      exclusive. A schedule is kept whole or not at all, and an open scheduled campaign knows its next run. */
  predicate RowShape(r: Campaign) {
    && ValidScope(r.scope) && r.scope == StoredScope(r.scope)
    && ValidRouting(r.reviewer, r.workflow, r.fallback, r.unlockHours)
    && Positive(r.unlockHours) && Positive(r.frequencyDays)
    && ValidTiming(r.scheduleDay, r.scheduleTime, r.scheduleEvery, r.scheduleDueDays)
    && r.scheduleDay.Some? == r.scheduleTime.Some? == r.scheduleEvery.Some? == r.scheduleDueDays.Some?
    && !(r.scheduleDay.Some? && r.frequencyDays.Some?)
    && (r.nextRunAt.Some? ==> r.scheduleDay.Some?)
    && (r.status.Active? && r.scheduleDay.Some? ==> r.nextRunAt.Some?)
  }

  /** The request rebuilt from a campaign that repeats after completion. */
  function RecurrenceForm(r: Campaign, now: int): Form
    requires r.frequencyDays.Some?
  {
    Form(r.scope, r.reviewer, r.fallback, r.unlockHours, r.workflow, now + r.frequencyDays.value * DAY,
         r.onNoResponse, r.frequencyDays, None, None, None, None)
  }

  /** The request rebuilt from the holder of a due schedule. It does not carry the workflow over. */
  function ScheduledForm(r: Campaign, now: int): Form {
    var dueDays := r.scheduleDueDays.GetOr(30);
    Form(r.scope, r.reviewer, r.fallback, r.unlockHours, None, now + dueDays * DAY, r.onNoResponse, None,
         r.scheduleDay, r.scheduleTime, Some(r.scheduleEvery.GetOr(1)), Some(dueDays))
  }

  /** The next cycle after completion would be due after the last date there is, which raises before the request is
      built. */
  predicate RepeatsPastCalendar(r: Campaign, now: int) {
    r.frequencyDays.Some? && LAST < now + r.frequencyDays.value * DAY
  }

  /** The next campaign of a schedule would be. */
  predicate DuePastCalendar(r: Campaign, now: int) { LAST < now + r.scheduleDueDays.GetOr(30) * DAY }

  /** The request rebuilt after completion passes the validators exactly when its due date can be expressed. */
  lemma RecurrenceFormValidExactly(r: Campaign, now: int)
    requires RowShape(r) && r.frequencyDays.Some?
    ensures ValidForm(RecurrenceForm(r, now)) <==> !RepeatsPastCalendar(r, now)
    ensures StoredScope(RecurrenceForm(r, now).scope) == r.scope
    ensures now < RecurrenceForm(r, now).dueAt
  {
  }

  /** The request rebuilt by the scheduled sweep passes the validators exactly when its due date can be expressed and
      the campaign has a reviewer: a workflow-routed one is rebuilt with neither a reviewer nor a workflow. */
  lemma ScheduledFormValidExactly(r: Campaign, now: int)
    requires RowShape(r) && r.scheduleDay.Some?
    ensures ValidForm(ScheduledForm(r, now)) <==> r.workflow.None? && !DuePastCalendar(r, now)
    ensures StoredScope(ScheduledForm(r, now).scope) == r.scope
    ensures now < ScheduledForm(r, now).dueAt
  {
  }

  /** The timing of a schedule held by a row. */
  function TimingOf(r: Campaign): (g: Timing)
    requires RowShape(r) && r.scheduleDay.Some?
  {
    Recurring(r.scheduleDay.value, r.scheduleTime.value, r.scheduleEvery.GetOr(1))
  }

  /** A campaign without a reviewer is routed through a workflow. */
  lemma RoutedOneWay(r: Campaign)
    requires RowShape(r)
    ensures r.reviewer.None? <==> r.workflow.Some?
  {
  }

  /** A schedule is kept whole. */
  lemma ScheduleIsWhole(r: Campaign)
    requires RowShape(r) && r.scheduleDay.Some?
    ensures r.scheduleTime.Some? && r.scheduleEvery.Some? && r.scheduleDueDays.Some?
  {
  }
}
