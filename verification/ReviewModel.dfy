/** The access-review engine as functions on a store: what each step of
    backend/app/services/access_reviews.py does to the tables. */
module ReviewModel {
  import opened Wrappers
  import opened Schedule
  import opened ReviewRows

  datatype Store = Store(campaigns: seq<Campaign>, items: seq<Item>, assignments: seq<Assignment>,
                         users: map<UserId, User>, resources: set<Target>)

  /** How `revoke_assignment` fares on an assignment that is not final: the access is removed, together with the
      linked assignments it cascades to, or the call fails and nothing changes. */
  datatype RevokeReply = Removed(cascade: set<AssignmentId>) | Refuses

  /** What one step sees of the world outside the tables. `inactive` gives the users without a sign-in for that many
      days, or None when the directory cannot tell. */
  datatype Env = Env(now: Clock, zone: Zone, revoke: AssignmentId -> RevokeReply,
                     inactive: int -> Option<set<UserId>>)

  datatype Error =
    | UserNotFound | ResourceNotFound | CampaignNotFound | ItemNotFound | AlreadyProcessed | ValidationError
    | RoutedThroughWorkflow | AccessDenied | FallbackNotYetAvailable | RevokeFailed | InactiveCheckUnavailable
    | UnlockPastCalendar | NextCyclePastCalendar

  datatype Answer<T> = Answer(s: Store, result: Result<T, Error>)

  /** The people a campaign names: its reviewers, and the user its scope is about. */
  predicate PeopleExist(r: Campaign, users: set<UserId>) {
    && (r.reviewer.Some? ==> r.reviewer.value in users)
    && (r.fallback.Some? ==> r.fallback.value in users)
    && (r.scope.kind.OneUser? || r.scope.kind.Mover? ==> r.scope.user.Some? && r.scope.user.value in users)
  }

  /** The foreign keys between the tables, and the shape of every campaign row. */
  predicate WellFormed(s: Store) {
    && (forall i :: 0 <= i < |s.campaigns| ==>
          && RowShape(s.campaigns[i]) && PeopleExist(s.campaigns[i], s.users.Keys)
          && (s.campaigns[i].parent.Some? ==> s.campaigns[i].parent.value < i))
    && (forall k :: 0 <= k < |s.items| ==>
          s.items[k].campaign < |s.campaigns| && s.items[k].assignment < |s.assignments|)
  }

  // ----- the snapshot: which assignments a scope selects

  /** `_matching_assignments_for_target`: the live assignments of one target. */
  predicate MatchesTarget(a: Assignment, t: Target) {
    && a.status.Live()
    && match t.kind
       case PACKAGE => a.package == Some(t.id)
       case BUSINESS_ROLE => a.businessRole == Some(t.id)
       case _ => a.resource == t
  }

  /** The user and the privileged and test accounts linked to that user. */
  predicate MovesWith(users: map<UserId, User>, u: UserId, mover: UserId) {
    u == mover || (u in users && users[u].linkedTo == Some(mover) && users[u].accountType != NORMAL)
  }

  /** The database filter of every scope but several resources and inactive users. */
  predicate PassesFilter(users: map<UserId, User>, c: Scope, a: Assignment)
    requires ValidScope(c)
  {
    && a.status.Live()
    && match c.kind
       case SpecificResource => MatchesTarget(a, Target(c.resourceType.value, c.resourceId.value))
       case Mover => MovesWith(users, a.user, c.user.value) && !a.byPolicy && !a.byMapping
       case OfResourceType => (match c.resourceType.value
                               case PACKAGE => a.package.Some?
                               case BUSINESS_ROLE => a.businessRole.Some?
                               case kind => a.resource.kind == kind)
       case OneUser => a.user == c.user.value
       case OfAccountType => a.user in users && users[a.user].accountType == c.accountType.value
       case _ => true
  }

  /** The ids below n of the rows a filter passes, in table order. */
  function SelectBelow(rows: seq<Assignment>, p: Assignment -> bool, n: nat): seq<AssignmentId>
    requires n <= |rows|
  {
    if n == 0 then []
    else SelectBelow(rows, p, n - 1) + (if p(rows[n - 1]) then [n - 1] else [])
  }

  function Select(rows: seq<Assignment>, p: Assignment -> bool): seq<AssignmentId> {
    SelectBelow(rows, p, |rows|)
  }

  /** acc, followed by the ids of more that it does not hold yet. */
  function AppendUnseen(acc: seq<AssignmentId>, more: seq<AssignmentId>): seq<AssignmentId>
    decreases |more|
  {
    if more == [] then acc
    else AppendUnseen(if more[0] in acc then acc else acc + [more[0]], more[1..])
  }

  function SelectTargets(rows: seq<Assignment>, targets: seq<Target>, acc: seq<AssignmentId>): seq<AssignmentId> {
    if targets == [] then acc
    else SelectTargets(rows, targets[1..], AppendUnseen(acc, Select(rows, a => MatchesTarget(a, targets[0]))))
  }

  /** `_matching_assignments`, or None when inactive users cannot be told from the others. */
  function Matching(s: Store, c: Scope, env: Env): Option<seq<AssignmentId>>
    requires ValidScope(c)
  {
    match c.kind
    case MultipleResources => Some(SelectTargets(s.assignments, c.targets.value, []))
    case InactiveUsers =>
      var live := Select(s.assignments, a => PassesFilter(s.users, c, a));
      if live == [] then Some([])
      else (match env.inactive(c.inactiveDays.value)
            case None => None
            case Some(idle) => Some(Select(s.assignments, a => PassesFilter(s.users, c, a) && a.user in idle)))
    case _ => Some(Select(s.assignments, a => PassesFilter(s.users, c, a)))
  }

  // ----- creating a campaign

  /** The first missing user or resource of a request, in the order they are looked up. */
  function MissingReference(s: Store, f: Form): Option<Error>
    requires ValidForm(f)
  {
    if f.workflow.None? && f.reviewer.value !in s.users then Some(UserNotFound)
    else if f.fallback.Some? && f.fallback.value !in s.users then Some(UserNotFound)
    else if (f.scope.kind.OneUser? || f.scope.kind.Mover?) && f.scope.user.value !in s.users then Some(UserNotFound)
    else if f.scope.kind.SpecificResource?
            && Target(f.scope.resourceType.value, f.scope.resourceId.value) !in s.resources then Some(ResourceNotFound)
    else if f.scope.kind.MultipleResources? && (exists t :: t in f.scope.targets.value && t !in s.resources)
    then Some(ResourceNotFound)
    else None
  }

  /** The resources a scope names; no foreign key keeps them. */
  predicate ResourcesExist(s: Store, c: Scope)
    requires ValidScope(c)
  {
    && (c.kind.SpecificResource? ==> Target(c.resourceType.value, c.resourceId.value) in s.resources)
    && (c.kind.MultipleResources? ==> forall t :: t in c.targets.value ==> t in s.resources)
  }

  /** A request that names the people and the scope of a stored campaign lacks nothing but possibly a resource. */
  lemma OnlyResourcesCanBeMissing(s: Store, r: Campaign, f: Form)
    requires ValidForm(f) && f.workflow.None? && PeopleExist(r, s.users.Keys)
    requires f.reviewer == r.reviewer && f.fallback == r.fallback && f.scope == r.scope
    ensures MissingReference(s, f) == if ResourcesExist(s, r.scope) then None else Some(ResourceNotFound)
  {
  }

  function Max(a: int, b: int): int { if a < b then b else a }

  /** The new campaign row, with its schedule and first run when one is asked for. */
  function NewRow(f: Form, env: Env): (r: Campaign)
    requires ValidForm(f)
    ensures RowShape(r) && r.status.Active? && r.parent.None? && r.completedAt.None? && r.createdAt == env.now
    ensures r.scope == StoredScope(f.scope) && r.workflow == f.workflow
    ensures r.reviewer == f.reviewer && r.fallback == f.fallback && r.unlockHours == f.unlockHours
    ensures r.dueAt == f.dueAt && r.onNoResponse == f.onNoResponse && r.frequencyDays == f.frequencyDays
    ensures r.scheduleDay == f.scheduleDay && r.scheduleTime == f.scheduleTime
    ensures f.scheduleDay.Some? ==>
              && r.nextRunAt == Some(NextRun(env.zone, TimingOf(r), env.now))
              && (f.scheduleEvery.Some? ==> r.scheduleEvery == f.scheduleEvery)
              && (f.scheduleDueDays.Some? ==> r.scheduleDueDays == f.scheduleDueDays)
    ensures f.scheduleDay.None? ==> r.nextRunAt.None?
  {
    var r := Campaign(StoredScope(f.scope), f.reviewer, f.fallback, f.unlockHours, f.workflow, Active, f.dueAt,
                      f.onNoResponse, f.frequencyDays, None, None, None, None, None, None, env.now, None);
    if f.scheduleDay.None? then r
    else
      var every := f.scheduleEvery.GetOr(1);
      r.(scheduleDay := f.scheduleDay, scheduleTime := f.scheduleTime, scheduleEvery := Some(every),
         scheduleDueDays := Some(f.scheduleDueDays.GetOr(Max(1, (f.dueAt - env.now) / DAY))),
         nextRunAt := Some(NextRun(env.zone, Recurring(f.scheduleDay.value, f.scheduleTime.value, every), env.now)))
  }

  /** What a request leaves open: one step is a month, and the next campaigns stay open for as many whole days as the
      first one, but at least one. The scope is stored as it is, without targets it does not use. */
  lemma NewRowDefaults(f: Form, env: Env)
    requires ValidForm(f)
    ensures var r := NewRow(f, env);
            && (f.scheduleDay.Some? && f.scheduleEvery.None? ==> r.scheduleEvery == Some(1))
            && (f.scheduleDay.Some? && f.scheduleDueDays.None? ==>
                  && r.scheduleDueDays.Some? && 1 <= r.scheduleDueDays.value
                  && f.dueAt - env.now < (r.scheduleDueDays.value + 1) * DAY
                  && (2 <= r.scheduleDueDays.value ==> r.scheduleDueDays.value * DAY <= f.dueAt - env.now))
            && r.scope.(targets := f.scope.targets) == f.scope
            && (if f.scope.kind.MultipleResources? then r.scope == f.scope else r.scope.targets.None?)
  {
    hide NextRun;
  }

  function NewItem(s: Store, c: CampaignId, a: AssignmentId): Item
    requires a < |s.assignments|
  {
    var row := s.assignments[a];
    Item(c, a, row.user, row.resource, row.status, Pending, None, None)
  }

  function NewItems(s: Store, c: CampaignId, ids: seq<AssignmentId>): seq<Item>
    requires forall j :: 0 <= j < |ids| ==> ids[j] < |s.assignments|
  {
    seq(|ids|, j requires 0 <= j < |ids| => NewItem(s, c, ids[j]))
  }

  /** The body of `create_campaign`. A lookup that fails after the campaign row was flushed leaves it stranded: the
      row is there, without items. */
  datatype Attempt = Refused(error: Error) | Stranded(s: Store) | Created(s: Store)

  function TryCreate(s: Store, f: Form, env: Env): (t: Attempt)
    requires WellFormed(s) && ValidForm(f) && f.workflow.None?
    ensures t.Stranded? ==> WellFormed(t.s) && t.s == AddRow(s, f, env)
    ensures t.Created? ==> WellFormed(t.s) && t.s.campaigns == AddRow(s, f, env).campaigns
  {
    var missing := MissingReference(s, f);
    if missing.Some? then Refused(missing.value)
    else
      var s1 := AddRow(s, f, env);
      match Matching(s, f.scope, env)
      case None => Stranded(s1)
      case Some(ids) =>
        MatchingInRange(s, f.scope, env);
        Created(s1.(items := s.items + NewItems(s, |s.campaigns|, ids)))
  }

  function AddRow(s: Store, f: Form, env: Env): Store
    requires ValidForm(f)
  {
    s.(campaigns := s.campaigns + [NewRow(f, env)])
  }

  lemma {:induction false} SelectBelowInRange(rows: seq<Assignment>, p: Assignment -> bool, n: nat)
    requires n <= |rows|
    ensures forall j :: 0 <= j < |SelectBelow(rows, p, n)| ==> SelectBelow(rows, p, n)[j] < n
  {
    if n > 0 {
      SelectBelowInRange(rows, p, n - 1);
    }
  }

  lemma {:induction false} AppendUnseenInRange(acc: seq<AssignmentId>, more: seq<AssignmentId>, n: nat)
    requires forall j :: 0 <= j < |acc| ==> acc[j] < n
    requires forall j :: 0 <= j < |more| ==> more[j] < n
    ensures forall j :: 0 <= j < |AppendUnseen(acc, more)| ==> AppendUnseen(acc, more)[j] < n
    decreases |more|
  {
    if more != [] {
      AppendUnseenInRange(if more[0] in acc then acc else acc + [more[0]], more[1..], n);
    }
  }

  lemma {:induction false} SelectTargetsInRange(rows: seq<Assignment>, targets: seq<Target>, acc: seq<AssignmentId>)
    requires forall j :: 0 <= j < |acc| ==> acc[j] < |rows|
    ensures forall j :: 0 <= j < |SelectTargets(rows, targets, acc)| ==> SelectTargets(rows, targets, acc)[j] < |rows|
  {
    if targets != [] {
      var p := a => MatchesTarget(a, targets[0]);
      SelectBelowInRange(rows, p, |rows|);
      AppendUnseenInRange(acc, Select(rows, p), |rows|);
      SelectTargetsInRange(rows, targets[1..], AppendUnseen(acc, Select(rows, p)));
    }
  }

  lemma MatchingInRange(s: Store, c: Scope, env: Env)
    requires ValidScope(c)
    ensures var m := Matching(s, c, env);
            m.Some? ==> forall j :: 0 <= j < |m.value| ==> m.value[j] < |s.assignments|
  {
    var rows, n := s.assignments, |s.assignments|;
    SelectBelowInRange(rows, a => PassesFilter(s.users, c, a), n);
    if c.kind.MultipleResources? {
      SelectTargetsInRange(rows, c.targets.value, []);
    } else if c.kind.InactiveUsers? && env.inactive(c.inactiveDays.value).Some? {
      var idle := env.inactive(c.inactiveDays.value).value;
      SelectBelowInRange(rows, a => PassesFilter(s.users, c, a) && a.user in idle, n);
    }
  }

  /** `create_campaign` by hand: a failing request is rolled back whole. */
  function Create(s: Store, f: ReviewerForm, env: Env): (r: Answer<CampaignId>)
    requires WellFormed(s)
    ensures WellFormed(r.s)
  {
    match TryCreate(s, f, env)
    case Refused(e) => Answer(s, Failure(e))
    case Stranded(_) => Answer(s, Failure(InactiveCheckUnavailable))
    case Created(s1) => Answer(s1, Success(|s.campaigns|))
  }

  // ----- deciding items and closing campaigns

  function MarkWithdrawn(rows: seq<Assignment>, ids: set<AssignmentId>): (r: seq<Assignment>)
    ensures |r| == |rows|
    ensures forall i :: 0 <= i < |rows| ==>
              r[i] == if i in ids && !rows[i].status.Final() then rows[i].(status := Withdrawn) else rows[i]
  {
    seq(|rows|, i requires 0 <= i < |rows| =>
      if i in ids && !rows[i].status.Final() then rows[i].(status := Withdrawn) else rows[i])
  }

  datatype RevokeOutcome = Done | AlreadyFinal | Failed

  /** `revoke_assignment`: a final assignment is left alone, a failing call changes nothing. */
  function Revoke(s: Store, a: AssignmentId, env: Env): (r: (Store, RevokeOutcome))
    requires a < |s.assignments|
    ensures r.0 == s.(assignments := r.0.assignments) && |r.0.assignments| == |s.assignments|
    ensures r.1.Done? || r.1.AlreadyFinal? ==> r.0.assignments[a].status.Final()
    ensures r.1.Failed? ==> r.0 == s && !s.assignments[a].status.Final()
  {
    if s.assignments[a].status.Final() then (s, AlreadyFinal)
    else match env.revoke(a)
         case Refuses => (s, Failed)
         case Removed(cascade) => (s.(assignments := MarkWithdrawn(s.assignments, {a} + cascade)), Done)
  }

  /** What asking for a revoke comes to. A final assignment is left alone, and a refusal changes nothing. Otherwise
      the access and what it cascades to are withdrawn, as far as they were not final yet, and no other assignment
      changes. */
  lemma RevokeExactly(s: Store, a: AssignmentId, env: Env)
    requires a < |s.assignments|
    ensures var (t, outcome) := Revoke(s, a, env);
            && (outcome.AlreadyFinal? <==> s.assignments[a].status in {Rejected, Expired, Withdrawn})
            && (outcome.Failed? <==> !outcome.AlreadyFinal? && env.revoke(a).Refuses?)
            && (!outcome.Done? ==> t == s)
            && (outcome.Done? ==>
                  && env.revoke(a).Removed? && t == s.(assignments := t.assignments)
                  && |t.assignments| == |s.assignments|
                  && forall i :: 0 <= i < |s.assignments| ==>
                       t.assignments[i] == if (i == a || i in env.revoke(a).cascade) && !s.assignments[i].status.Final()
                                           then s.assignments[i].(status := Withdrawn) else s.assignments[i])
  {
  }

  /** The items of a campaign still undecided, among the first n. */
  function PendingBelow(items: seq<Item>, c: CampaignId, n: nat): (ids: seq<ItemId>)
    requires n <= |items|
    ensures forall j :: 0 <= j < |ids| ==> ids[j] < n
  {
    if n == 0 then []
    else PendingBelow(items, c, n - 1)
         + (if items[n - 1].campaign == c && items[n - 1].decision.Pending? then [n - 1] else [])
  }

  /** Closing without a decision: keep the access, or revoke it and swallow any failure. */
  function CloseItem(s: Store, k: ItemId, keep: NoResponse, env: Env): (r: Store)
    requires WellFormed(s) && k < |s.items|
    ensures WellFormed(r) && |r.items| == |s.items| && r.campaigns == s.campaigns
  {
    if keep.KeepAccess? then
      s.(items := s.items[k := s.items[k].(decision := Approved, decidedAt := Some(env.now))])
    else
      var s1 := Revoke(s, s.items[k].assignment, env).0;
      s1.(items := s.items[k := s.items[k].(decision := AutoRevoked, decidedAt := Some(env.now))])
  }

  function CloseItems(s: Store, ids: seq<ItemId>, keep: NoResponse, env: Env): (r: Store)
    requires WellFormed(s)
    requires forall j :: 0 <= j < |ids| ==> ids[j] < |s.items|
    ensures WellFormed(r) && |r.items| == |s.items| && r.campaigns == s.campaigns
    decreases |ids|
  {
    if ids == [] then s else CloseItems(CloseItem(s, ids[0], keep, env), ids[1..], keep, env)
  }

  function Finish(s: Store, c: CampaignId, env: Env): (r: Store)
    requires WellFormed(s) && c < |s.campaigns|
    ensures WellFormed(r)
  {
    s.(campaigns := s.campaigns[c := s.campaigns[c].(status := Completed, completedAt := Some(env.now))])
  }

  function SetParent(s: Store, child: CampaignId, parent: CampaignId): (r: Store)
    requires WellFormed(s) && parent < child < |s.campaigns|
    ensures WellFormed(r)
  {
    s.(campaigns := s.campaigns[child := s.campaigns[child].(parent := Some(parent))])
  }

  /** `_maybe_spawn_recurrence`: the next campaign of a chain that repeats after completion. A failing request is
      reported, but what it flushed stays. A workflow is always refused, for want of a requester. A due date that cannot
      be expressed raises an error that nothing catches. */
  function Spawn(s: Store, c: CampaignId, env: Env): (r: Store)
    requires WellFormed(s) && c < |s.campaigns|
    ensures WellFormed(r)
  {
    var row := s.campaigns[c];
    if row.frequencyDays.None? || row.workflow.Some? || RepeatsPastCalendar(row, env.now) then s
    else
      RecurrenceFormValidExactly(row, env.now);
      match TryCreate(s, RecurrenceForm(row, env.now), env)
      case Refused(_) => s
      case Stranded(s1) => s1
      case Created(s1) => SetParent(s1, |s.campaigns|, c)
  }

  /** How many items of a campaign carry one of these decisions. */
  function Count(items: seq<Item>, c: CampaignId, ds: set<Decision>): nat {
    if items == [] then 0
    else Count(items[..|items| - 1], c, ds)
         + (if items[|items| - 1].campaign == c && items[|items| - 1].decision in ds then 1 else 0)
  }

  const ALL_DECISIONS := {Pending, Approved, Revoked, AutoRevoked}
  const DECIDED := {Approved, Revoked, AutoRevoked}

  /** An open campaign without undecided items. */
  predicate Closes(s: Store, c: CampaignId)
    requires c < |s.campaigns|
  {
    Count(s.items, c, ALL_DECISIONS) <= Count(s.items, c, DECIDED) && s.campaigns[c].status.Active?
  }

  /** The tail of `decide_item`: an open campaign without undecided items is completed. */
  function CloseWhenDone(s: Store, c: CampaignId, env: Env): (r: Store)
    requires WellFormed(s) && c < |s.campaigns|
    ensures WellFormed(r)
  {
    if Closes(s, c) then Spawn(Finish(s, c, env), c, env) else s
  }

  /** Who asks: the user they resolve to, and whether they administer reviews. */
  datatype Actor = Actor(id: Option<UserId>, isAdmin: bool)

  /** `_authorize_review_decision`. */
  function Authorize(r: Campaign, actor: Actor, now: Clock): Result<Option<UserId>, Error> {
    if actor.isAdmin then Success(actor.id)
    else if actor.id.Some? && actor.id == r.reviewer then Success(actor.id)
    else if actor.id.Some? && actor.id == r.fallback then
      if r.unlockHours.Some? && LAST < r.createdAt + r.unlockHours.value * HOUR then Failure(UnlockPastCalendar)
      else if r.unlockHours.Some? && now < r.createdAt + r.unlockHours.value * HOUR then
        Failure(FallbackNotYetAvailable)
      else Success(actor.id)
    else Failure(AccessDenied)
  }

  datatype Verdict = Approve | TakeAway

  function Decide(s: Store, k: ItemId, verdict: Verdict, actor: Actor, env: Env): (r: Answer<()>)
    requires WellFormed(s)
    ensures WellFormed(r.s)
  {
    if k >= |s.items| then Answer(s, Failure(ItemNotFound))
    else
      var item := s.items[k];
      if !item.decision.Pending? then Answer(s, Failure(AlreadyProcessed))
      else if s.campaigns[item.campaign].workflow.Some? then Answer(s, Failure(RoutedThroughWorkflow))
      else
        match Authorize(s.campaigns[item.campaign], actor, env.now)
        case Failure(e) => Answer(s, Failure(e))
        case Success(decider) => DecideAs(s, k, verdict, decider, env)
  }

  /** What closing a campaign answers: the row is closed when starting its next cycle raises. */
  function AfterClosing(r: Campaign, now: Clock): Result<(), Error> {
    if RepeatsPastCalendar(r, now) then Failure(NextCyclePastCalendar) else Success(())
  }

  /** The rest of `decide_item`, for a decider who is authorized: a revoke that fails stops it. */
  function DecideAs(s: Store, k: ItemId, verdict: Verdict, decider: Option<UserId>, env: Env): (r: Answer<()>)
    requires WellFormed(s) && k < |s.items|
    ensures WellFormed(r.s)
  {
    var (s1, outcome) := if verdict.TakeAway? then Revoke(s, s.items[k].assignment, env) else (s, Done);
    if outcome.Failed? then Answer(s, Failure(RevokeFailed))
    else
      var c := s.items[k].campaign;
      var s2 := RecordDecision(s1, k, verdict, decider, env);
      Answer(CloseWhenDone(s2, c, env), if Closes(s2, c) then AfterClosing(s.campaigns[c], env.now) else Success(()))
  }

  function RecordDecision(s: Store, k: ItemId, verdict: Verdict, decider: Option<UserId>, env: Env): (r: Store)
    requires WellFormed(s) && k < |s.items|
    ensures WellFormed(r) && r == s.(items := r.items)
  {
    var decision := if verdict.Approve? then Approved else Revoked;
    s.(items := s.items[k := s.items[k].(decision := decision, decidedBy := decider, decidedAt := Some(env.now))])
  }

  /** `complete_campaign`, for a campaign with a reviewer. */
  function Complete(s: Store, c: CampaignId, env: Env): (r: Answer<()>)
    requires WellFormed(s)
    ensures WellFormed(r.s)
  {
    if c >= |s.campaigns| then Answer(s, Failure(CampaignNotFound))
    else if !s.campaigns[c].status.Active? then Answer(s, Failure(AlreadyProcessed))
    else Answer(CloseCampaign(s, c, env), AfterClosing(s.campaigns[c], env.now))
  }

  function CloseCampaign(s: Store, c: CampaignId, env: Env): (r: Store)
    requires WellFormed(s) && c < |s.campaigns|
    ensures WellFormed(r)
  {
    var s1 := CloseItems(s, PendingBelow(s.items, c, |s.items|), s.campaigns[c].onNoResponse, env);
    Spawn(Finish(s1, c, env), c, env)
  }

  // ----- editing

  /** The recurrence part of `update_campaign`: clearing wins over setting, and the newer mode wins over the other. */
  function EditModes(r: Campaign, e: EditForm, env: Env): (q: Campaign)
    requires RowShape(r)
    requires e.clearSchedule || e.scheduleDay.Some? == e.scheduleTime.Some?
  {
    var a := if e.clearFrequency then r.(frequencyDays := None)
             else if e.frequencyDays.Some? then r.(frequencyDays := e.frequencyDays)
             else r;
    var b := if e.clearSchedule then DropSchedule(a)
             else if e.scheduleDay.Some? then
               var every := if e.scheduleEvery.Some? then e.scheduleEvery.value else a.scheduleEvery.GetOr(1);
               var dueDays := if e.scheduleDueDays.Some? then e.scheduleDueDays.value else a.scheduleDueDays.GetOr(30);
               var g := Recurring(e.scheduleDay.value, e.scheduleTime.value, every);
               a.(scheduleDay := e.scheduleDay, scheduleTime := e.scheduleTime, scheduleEvery := Some(every),
                  scheduleDueDays := Some(dueDays), frequencyDays := None,
                  nextRunAt := Some(NextRun(env.zone, g, env.now)))
             else a;
    if b.frequencyDays.Some? && b.scheduleDay.Some? && !e.clearSchedule && e.scheduleDay.None?
    then DropSchedule(b)
    else b
  }

  function DropSchedule(r: Campaign): Campaign {
    r.(scheduleDay := None, scheduleTime := None, scheduleEvery := None, scheduleDueDays := None, nextRunAt := None)
  }

  /** The part of `update_campaign` before that: the reviewers and the due date. */
  function EditReviewers(r: Campaign, e: EditForm): Campaign {
    var reviewer := if e.reviewer.Some? then e.reviewer else r.reviewer;
    var fallback := if e.clearFallback then None else if e.fallback.Some? then e.fallback else r.fallback;
    var unlock := if e.unlockHours.Some? then e.unlockHours else if e.clearFallback then None else r.unlockHours;
    r.(reviewer := reviewer, fallback := fallback, unlockHours := unlock, dueAt := e.dueAt.GetOr(r.dueAt))
  }

  function EditRow(r: Campaign, e: EditForm, users: set<UserId>, env: Env): (q: Result<Campaign, Error>)
    requires RowShape(r)
  {
    if r.workflow.Some? && (e.reviewer.Some? || e.fallback.Some? || e.clearFallback || e.unlockHours.Some?) then
      Failure(ValidationError)
    else if e.reviewer.Some? && e.reviewer != r.reviewer && e.reviewer.value !in users then Failure(UserNotFound)
    else if !e.clearFallback && e.fallback.Some? && e.fallback != r.fallback && e.fallback.value !in users then
      Failure(UserNotFound)
    else if !e.clearSchedule && e.scheduleDay.Some? != e.scheduleTime.Some? then Failure(ValidationError)
    else
      Success(EditModes(EditReviewers(r, e), e, env))
  }

  /** However the fields and clear flags of an edit are combined, the edited row keeps its shape: at most one
      recurrence mode, a whole schedule or none, and a next run on an open scheduled campaign. */
  lemma EditModesKeepShape(r: Campaign, e: EditForm, env: Env)
    requires RowShape(r) && r.status.Active?
    requires e.clearSchedule || e.scheduleDay.Some? == e.scheduleTime.Some?
    ensures RowShape(EditModes(r, e, env)) && SameIdentity(r, EditModes(r, e, env))
  {
  }

  /** What an edit never touches: the scope, the routing, the status and where the campaign came from. */
  predicate SameIdentity(r: Campaign, q: Campaign) {
    && q.scope == r.scope && q.workflow == r.workflow && q.onNoResponse == r.onNoResponse && q.status == r.status
    && q.parent == r.parent && q.createdAt == r.createdAt && q.completedAt == r.completedAt
  }

  lemma EditKeepsShape(r: Campaign, e: EditForm, users: set<UserId>, env: Env)
    requires RowShape(r) && r.status.Active?
    ensures var q := EditRow(r, e, users, env); q.Success? ==> RowShape(q.value) && SameIdentity(r, q.value)
  {
    var q := EditRow(r, e, users, env);
    if q.Success? {
      EditModesKeepShape(EditReviewers(r, e), e, env);
    }
  }

  lemma EditKeepsPeople(r: Campaign, e: EditForm, users: set<UserId>, env: Env)
    requires RowShape(r) && PeopleExist(r, users)
    ensures var q := EditRow(r, e, users, env); q.Success? ==> PeopleExist(q.value, users)
  {
    hide NextRun;
  }

  /** An edit asks for this mode: it sets the mode's fields and does not clear them. */
  predicate AsksForSchedule(e: EditForm) { !e.clearSchedule && e.scheduleDay.Some? }

  predicate AsksForFrequency(e: EditForm) { !e.clearFrequency && e.frequencyDays.Some? }

  /** Who reviews after an edit, and by when: what was asked for, otherwise what was there; clearing the fallback
      reviewer clears the waiting time too, unless a new one is given. */
  predicate ReviewedAsAsked(r: Campaign, q: Campaign, e: Edit) {
    && q.reviewer == (if e.reviewer.Some? then e.reviewer else r.reviewer)
    && q.dueAt == (if e.dueAt.Some? then e.dueAt.value else r.dueAt)
    && (e.clearFallback ==> q.fallback.None? && q.unlockHours == e.unlockHours)
    && (!e.clearFallback ==>
          && q.fallback == (if e.fallback.Some? then e.fallback else r.fallback)
          && q.unlockHours == (if e.unlockHours.Some? then e.unlockHours else r.unlockHours))
  }

  /** Which recurrence a campaign has after an edit. A schedule that was asked for: its step and open time are the old
      ones unless given, else one month and 30 days, and it runs next at its next slot. No schedule, when it was cleared
      or an interval was asked for instead. Otherwise the schedule that was there, in all its fields. */
  predicate RecursAsAsked(r: Campaign, q: Campaign, e: EditForm, env: Env) {
    && RowShape(q)
    && q.frequencyDays == (if AsksForSchedule(e) || e.clearFrequency then None
                           else if e.frequencyDays.Some? then e.frequencyDays
                           else r.frequencyDays)
    && if AsksForSchedule(e) then
         && q.scheduleDay == e.scheduleDay && q.scheduleTime == e.scheduleTime
         && q.scheduleEvery == (if e.scheduleEvery.Some? then e.scheduleEvery
                                else if r.scheduleEvery.Some? then r.scheduleEvery else Some(1))
         && q.scheduleDueDays == (if e.scheduleDueDays.Some? then e.scheduleDueDays
                                  else if r.scheduleDueDays.Some? then r.scheduleDueDays else Some(30))
         && q.nextRunAt == Some(NextRun(env.zone, TimingOf(q), env.now))
       else if e.clearSchedule || AsksForFrequency(e) then q.scheduleDay.None? && q.nextRunAt.None?
       else
         && q.scheduleDay == r.scheduleDay && q.scheduleTime == r.scheduleTime && q.scheduleEvery == r.scheduleEvery
         && q.scheduleDueDays == r.scheduleDueDays && q.nextRunAt == r.nextRunAt
  }

  lemma ModesExactly(r: Campaign, e: EditForm, env: Env)
    requires RowShape(r) && r.status.Active? && (e.clearSchedule || e.scheduleDay.Some? == e.scheduleTime.Some?)
    requires RowShape(EditModes(r, e, env))
    ensures RecursAsAsked(r, EditModes(r, e, env), e, env)
  {
    ScheduleFields(r);
    ScheduleFields(EditModes(r, e, env));
    hide NextRun, RowShape;
  }

  lemma ModesLeaveReviewers(r: Campaign, e: EditForm, env: Env)
    requires RowShape(r) && (e.clearSchedule || e.scheduleDay.Some? == e.scheduleTime.Some?)
    ensures var q := EditModes(r, e, env);
            && q.reviewer == r.reviewer && q.fallback == r.fallback && q.unlockHours == r.unlockHours
            && q.dueAt == r.dueAt
  {
    hide NextRun;
  }

  /** A schedule is kept whole or not at all, and never beside an interval. */
  lemma ScheduleFields(r: Campaign)
    requires RowShape(r)
    ensures r.scheduleDay.Some? == r.scheduleTime.Some? == r.scheduleEvery.Some? == r.scheduleDueDays.Some?
    ensures !(r.scheduleDay.Some? && r.frequencyDays.Some?) && (r.nextRunAt.Some? ==> r.scheduleDay.Some?)
  {
  }

  /** The stored row, field by field, however the fields and clear flags of the edit are combined. */
  lemma EditedRowExactly(r: Campaign, e: EditForm, users: set<UserId>, env: Env)
    requires RowShape(r) && r.status.Active? && EditRow(r, e, users, env).Success?
    ensures var q := EditRow(r, e, users, env).value;
            SameIdentity(r, q) && ReviewedAsAsked(r, q, e) && RecursAsAsked(r, q, e, env)
  {
    EditKeepsShape(r, e, users, env);
    var was := EditReviewers(r, e);
    assert RowShape(was);
    hide RowShape;
    ModesExactly(was, e, env);
    ModesLeaveReviewers(was, e, env);
    hide EditModes, NextRun;
  }

  function Update(s: Store, c: CampaignId, e: EditForm, env: Env): (r: Answer<()>)
    requires WellFormed(s)
    ensures WellFormed(r.s)
  {
    if c >= |s.campaigns| then Answer(s, Failure(CampaignNotFound))
    else if !s.campaigns[c].status.Active? then Answer(s, Failure(AlreadyProcessed))
    else
      match EditRow(s.campaigns[c], e, s.users.Keys, env)
      case Failure(error) => Answer(s, Failure(error))
      case Success(row) =>
        EditKeepsShape(s.campaigns[c], e, s.users.Keys, env);
        EditKeepsPeople(s.campaigns[c], e, s.users.Keys, env);
        Answer(s.(campaigns := s.campaigns[c := row]), Success(()))
  }

  /** The edit names a reviewer, or a fallback reviewer it does not clear, who does not exist. */
  predicate NamesStrangers(s: Store, e: Edit) {
    || (e.reviewer.Some? && e.reviewer.value !in s.users)
    || (!e.clearFallback && e.fallback.Some? && e.fallback.value !in s.users)
  }

  predicate TouchesReviewers(e: Edit) {
    e.reviewer.Some? || e.fallback.Some? || e.clearFallback || e.unlockHours.Some?
  }

  /** A day without a time, or a time without a day, and the schedule is not cleared. */
  predicate HalfSchedule(e: Edit) { !e.clearSchedule && e.scheduleDay.Some? != e.scheduleTime.Some? }

  /** An edit is stored exactly when the campaign exists and is open, a campaign routed through a workflow is asked
      for no reviewer field, everybody it names exists, and the day and time of a schedule come together. Then the one
      row becomes what was asked for; otherwise nothing changes, and this is the error. */
  lemma UpdateExactly(s: Store, c: CampaignId, e: EditForm, env: Env)
    requires WellFormed(s)
    ensures var a := Update(s, c, e, env);
            && (a.result.Success? <==>
                  && c < |s.campaigns| && s.campaigns[c].status.Active?
                  && !(s.campaigns[c].workflow.Some? && TouchesReviewers(e))
                  && !NamesStrangers(s, e) && !HalfSchedule(e))
            && (a.result.Failure? ==>
                  && a.s == s
                  && a.result.error == if c >= |s.campaigns| then CampaignNotFound
                                       else if s.campaigns[c].status.Completed? then AlreadyProcessed
                                       else if s.campaigns[c].workflow.None? && NamesStrangers(s, e) then UserNotFound
                                       else ValidationError)
            && (a.result.Success? ==>
                  && |a.s.campaigns| == |s.campaigns|
                  && a.s == s.(campaigns := s.campaigns[c := a.s.campaigns[c]])
                  && SameIdentity(s.campaigns[c], a.s.campaigns[c])
                  && ReviewedAsAsked(s.campaigns[c], a.s.campaigns[c], e)
                  && RecursAsAsked(s.campaigns[c], a.s.campaigns[c], e, env))
  {
    if c < |s.campaigns| && s.campaigns[c].status.Active? {
      var row := s.campaigns[c];
      RoutedOneWay(row);
      hide RowShape, EditModes;
      if EditRow(row, e, s.users.Keys, env).Success? {
        EditedRowExactly(row, e, s.users.Keys, env);
      }
    }
  }

  // ----- the worker's sweeps

  predicate Overdue(r: Campaign, now: int) { r.status.Active? && r.dueAt <= now }

  /** The holder of a schedule whose slot has arrived. */
  predicate Due(r: Campaign, now: int) { r.nextRunAt.Some? && r.nextRunAt.value <= now && r.scheduleDay.Some? }

  function IdsBelow(rows: seq<Campaign>, p: Campaign -> bool, n: nat): (ids: seq<CampaignId>)
    requires n <= |rows|
    ensures forall j :: 0 <= j < |ids| ==> ids[j] < n && p(rows[ids[j]])
    ensures forall i :: 0 <= i < n && p(rows[i]) ==> i in ids
    ensures forall i, j :: 0 <= i < j < |ids| ==> ids[i] < ids[j]
  {
    if n == 0 then []
    else IdsBelow(rows, p, n - 1) + (if p(rows[n - 1]) then [n - 1] else [])
  }

  function CloseAll(s: Store, ids: seq<CampaignId>, env: Env): (r: Store)
    requires WellFormed(s)
    ensures WellFormed(r)
    decreases |ids|
  {
    if ids == [] then s else CloseAll(Complete(s, ids[0], env).s, ids[1..], env)
  }

  /** How a closing sweep ends, and how many campaigns it reports; crashed: an error that nothing catches ended it. */
  datatype Closing = Closing(s: Store, closed: nat, crashed: bool)

  /** The loop of the overdue sweep: errors of the service are skipped, any other error ends it. */
  function CloseUntil(s: Store, ids: seq<CampaignId>, env: Env): (r: Closing)
    requires WellFormed(s)
    ensures WellFormed(r.s)
    decreases |ids|
  {
    if ids == [] then Closing(s, 0, false)
    else
      var a := Complete(s, ids[0], env);
      if a.result == Failure(NextCyclePastCalendar) then Closing(a.s, 0, true)
      else
        var r := CloseUntil(a.s, ids[1..], env);
        r.(closed := r.closed + (if a.result.Success? then 1 else 0))
  }

  function OverdueIds(s: Store, now: int): seq<CampaignId> {
    IdsBelow(s.campaigns, r => Overdue(r, now), |s.campaigns|)
  }

  function SweepOverdue(s: Store, env: Env): (r: Closing)
    requires WellFormed(s)
    ensures WellFormed(r.s)
  {
    CloseUntil(s, OverdueIds(s, env.now), env)
  }

  function SetNextRun(s: Store, c: CampaignId, at: Option<int>): (r: Store)
    requires WellFormed(s) && c < |s.campaigns| && s.campaigns[c].scheduleDay.Some?
    requires at.Some? || s.campaigns[c].status.Completed?
    ensures WellFormed(r)
  {
    s.(campaigns := s.campaigns[c := s.campaigns[c].(nextRunAt := at)])
  }

  function Following(r: Campaign, env: Env): int
    requires RowShape(r) && r.scheduleDay.Some?
  {
    NextRun(env.zone, TimingOf(r), env.now)
  }

  /** What the scheduled sweep does with one due holder. Crashed: an error that the sweep does not catch ends it, and
      what it did for this holder is rolled back. That is a due date that cannot be expressed, a rebuilt request that
      does not validate, or a notification without a recipient, which the database refuses at the commit. */
  datatype Start = Kept(s: Store) | Started(s: Store) | Crashed

  /** Serving this holder raises such an error. */
  predicate StartRaises(r: Campaign, now: int) {
    r.workflow.Some? || (r.status.Completed? && DuePastCalendar(r, now))
  }

  /** The rows of s are still there, up to when they run next; rows may have been added. */
  ghost predicate SameButNextRuns(rows: seq<Campaign>, later: seq<Campaign>) {
    && |rows| <= |later|
    && forall i :: 0 <= i < |rows| ==> later[i] == rows[i].(nextRunAt := later[i].nextRunAt)
  }

  function StartNext(s: Store, h: CampaignId, env: Env): (t: Start)
    requires WellFormed(s) && h < |s.campaigns| && s.campaigns[h].scheduleDay.Some?
    ensures !t.Crashed? ==> WellFormed(t.s) && SameButNextRuns(s.campaigns, t.s.campaigns)
    ensures t.Crashed? <==> StartRaises(s.campaigns[h], env.now)
  {
    hide RowShape, PeopleExist, ValidForm, TryCreate, NewRow, Following;
    var row := s.campaigns[h];
    var following := Some(Following(row, env));
    ScheduledFormValidExactly(row, env.now);
    RoutedOneWay(row);
    if row.status.Active? then
      if row.reviewer.None? then Crashed else Kept(SetNextRun(s, h, following))
    else if !ValidForm(ScheduledForm(row, env.now)) then Crashed
    else
      match TryCreate(s, ScheduledForm(row, env.now), env)
      case Refused(_) => Kept(SetNextRun(s, h, following))
      case Stranded(s1) => Kept(SetNextRun(s1, h, following))
      case Created(s1) => Started(SetNextRun(SetParent(s1, |s.campaigns|, h), h, None))
  }

  datatype Sweep = Sweep(s: Store, started: nat, crashed: bool)

  function StartAll(s: Store, ids: seq<CampaignId>, env: Env): (r: Sweep)
    requires WellFormed(s)
    requires forall j :: 0 <= j < |ids| ==> ids[j] < |s.campaigns| && s.campaigns[ids[j]].scheduleDay.Some?
    ensures WellFormed(r.s)
    decreases |ids|
  {
    hide RowShape, PeopleExist;
    if ids == [] then Sweep(s, 0, false)
    else
      match StartNext(s, ids[0], env)
      case Crashed => Sweep(s, 0, true)
      case Kept(s1) => StartAll(s1, ids[1..], env)
      case Started(s1) => var r := StartAll(s1, ids[1..], env); r.(started := r.started + 1)
  }

  function DueIds(s: Store, now: int): seq<CampaignId> {
    IdsBelow(s.campaigns, r => Due(r, now), |s.campaigns|)
  }

  function SweepScheduled(s: Store, env: Env): (r: Sweep)
    requires WellFormed(s)
    ensures WellFormed(r.s)
  {
    StartAll(s, DueIds(s, env.now), env)
  }
}
