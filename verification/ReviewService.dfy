/** The access-review service as the program runs it: tables that its methods update in place. Every method is tied
    to the corresponding function of ReviewModel, on all tables with intact foreign keys, and keeps the invariant. */
module ReviewService {
  import opened Wrappers
  import opened Schedule
  import opened ReviewRows
  import opened ReviewModel
  import opened ReviewInvariant
  import opened ReviewRuns
  import opened ReviewSweeps

  class Service {
    var campaigns: seq<Campaign>
    var items: seq<Item>
    var assignments: seq<Assignment>
    var users: map<UserId, User>
    var resources: set<Target>

    function Db(): Store
      reads this
    {
      Store(campaigns, items, assignments, users, resources)
    }

    ghost predicate Valid()
      reads this
    {
      WellFormed(Db())
    }

    constructor (assignments: seq<Assignment>, users: map<UserId, User>, resources: set<Target>)
      ensures Valid() && Inv(Db()) && Db() == Store([], [], assignments, users, resources)
    {
      this.campaigns, this.items := [], [];
      this.assignments, this.users, this.resources := assignments, users, resources;
    }

    /** `_matching_assignments`: several targets are resolved one by one, and an assignment seen before is skipped. */
    method MatchingAssignments(c: Scope, env: Env) returns (r: Option<seq<AssignmentId>>)
      requires ValidScope(c)
      ensures r == Matching(Db(), c, env)
    {
      if !c.kind.MultipleResources? {
        return Matching(Db(), c, env);
      }
      var targets := c.targets.value;
      var seen: set<AssignmentId> := {};
      var combined: seq<AssignmentId> := [];
      for i := 0 to |targets|
        invariant forall a :: a in seen <==> a in combined
        invariant SelectTargets(assignments, targets[i..], combined) == SelectTargets(assignments, targets, [])
      {
        var matches := Select(assignments, a => MatchesTarget(a, targets[i]));
        ghost var before := combined;
        for j := 0 to |matches|
          invariant forall a :: a in seen <==> a in combined
          invariant AppendUnseen(combined, matches[j..]) == AppendUnseen(before, matches)
        {
          assert matches[j..][0] == matches[j] && matches[j..][1..] == matches[j + 1..];
          if matches[j] !in seen {
            seen := seen + {matches[j]};
            combined := combined + [matches[j]];
          }
        }
        assert targets[i..][0] == targets[i] && targets[i..][1..] == targets[i + 1..];
      }
      r := Some(combined);
    }

    /** `create_campaign`. The campaign row is stored before its roster is resolved. */
    method CreateCampaign(f: Form, env: Env) returns (r: Result<CampaignId, Error>)
      requires Valid() && ValidForm(f) && f.workflow.None?
      modifies this
      ensures Valid() && Keeps(old(Db()), Db())
      ensures match TryCreate(old(Db()), f, env)
              case Refused(e) => Db() == old(Db()) && r == Failure(e)
              case Stranded(s) => Db() == s && r == Failure(InactiveCheckUnavailable)
              case Created(s) => Db() == s && r == Success(old(|campaigns|))
    {
      ghost var s := Db();
      CreateKeeps(s, f, env);
      hide RowShape, PeopleExist, NewRow, Keeps, Matching;
      var missing := MissingReference(Db(), f);
      if missing.Some? {
        return Failure(missing.value);
      }
      var id := |campaigns|;
      campaigns := campaigns + [NewRow(f, env)];
      var found := MatchingAssignments(f.scope, env);
      MatchingIgnoresReviews(s, Db(), f.scope, env);
      if found.None? {
        return Failure(InactiveCheckUnavailable);
      }
      var ids := found.value;
      MatchingInRange(s, f.scope, env);
      for j := 0 to |ids|
        invariant Db() == AddRow(s, f, env).(items := s.items + NewItems(s, id, ids)[..j])
      {
        var row := assignments[ids[j]];
        items := items + [Item(id, ids[j], row.user, row.resource, row.status, Pending, None, None)];
      }
      assert NewItems(s, id, ids)[..|ids|] == NewItems(s, id, ids);
      r := Success(id);
    }

    /** A request by hand: when creating fails, the session ends without a commit and nothing is kept. */
    method CreateByHand(f: ReviewerForm, env: Env) returns (r: Result<CampaignId, Error>)
      requires Valid()
      modifies this
      ensures Valid() && Answer(Db(), r) == Create(old(Db()), f, env)
    {
      hide RowShape, PeopleExist, NewRow, Keeps, Matching, MissingReference;
      var savedCampaigns, savedItems := campaigns, items;
      r := CreateCampaign(f, env);
      if r.Failure? {
        campaigns, items := savedCampaigns, savedItems;
      }
    }

    /** `update_campaign`: the row is stored only when no check fails. */
    method UpdateCampaign(c: CampaignId, e: EditForm, env: Env) returns (r: Result<(), Error>)
      requires Valid()
      modifies this
      ensures Valid() && Keeps(old(Db()), Db())
      ensures Answer(Db(), r) == Update(old(Db()), c, e, env)
    {
      ghost var s := Db();
      if Inv(s) {
        UpdateKeepsInv(s, c, e, env);
      }
      assert Keeps(s, Update(s, c, e, env).s);
      hide RowShape, PeopleExist, Keeps, EditRow;
      if c >= |campaigns| {
        return Failure(CampaignNotFound);
      }
      if !campaigns[c].status.Active? {
        return Failure(AlreadyProcessed);
      }
      var edited := EditedRow(campaigns[c], e, env);
      if edited.Failure? {
        return Failure(edited.error);
      }
      campaigns := campaigns[c := edited.value];
      r := Success(());
    }

    /** The checks of `update_campaign`, and its assignments to the row, in the order they are made. */
    method EditedRow(was: Campaign, e: EditForm, env: Env) returns (r: Result<Campaign, Error>)
      requires RowShape(was)
      ensures r == EditRow(was, e, users.Keys, env)
    {
      hide EditModes;
      var row := was;
      if row.workflow.Some? && (e.reviewer.Some? || e.fallback.Some? || e.clearFallback || e.unlockHours.Some?) {
        return Failure(ValidationError);
      }
      if e.reviewer.Some? && e.reviewer != row.reviewer {
        if e.reviewer.value !in users {
          return Failure(UserNotFound);
        }
        row := row.(reviewer := e.reviewer);
      }
      if e.clearFallback {
        row := row.(fallback := None, unlockHours := None);
      } else if e.fallback.Some? && e.fallback != row.fallback {
        if e.fallback.value !in users {
          return Failure(UserNotFound);
        }
        row := row.(fallback := e.fallback);
      }
      if e.unlockHours.Some? {
        row := row.(unlockHours := e.unlockHours);
      }
      if e.dueAt.Some? {
        row := row.(dueAt := e.dueAt.value);
      }
      if !e.clearSchedule && e.scheduleDay.Some? != e.scheduleTime.Some? {
        return Failure(ValidationError);
      }
      row := EditedModes(row, e, env);
      r := Success(row);
    }

    /** The recurrence part of `update_campaign`. */
    method EditedModes(was: Campaign, e: EditForm, env: Env) returns (row: Campaign)
      requires RowShape(was) && (e.clearSchedule || e.scheduleDay.Some? == e.scheduleTime.Some?)
      ensures row == EditModes(was, e, env)
    {
      hide NextRun;
      row := was;
      if e.clearFrequency {
        row := row.(frequencyDays := None);
      } else if e.frequencyDays.Some? {
        row := row.(frequencyDays := e.frequencyDays);
      }
      if e.clearSchedule {
        row := DropSchedule(row);
      } else if e.scheduleDay.Some? {
        var every := if e.scheduleEvery.Some? then e.scheduleEvery.value else row.scheduleEvery.GetOr(1);
        var dueDays := if e.scheduleDueDays.Some? then e.scheduleDueDays.value else row.scheduleDueDays.GetOr(30);
        var next, _ := ComputeNextRun(env.zone, Recurring(e.scheduleDay.value, e.scheduleTime.value, every), env.now);
        row := row.(scheduleDay := e.scheduleDay, scheduleTime := e.scheduleTime, scheduleEvery := Some(every));
        row := row.(scheduleDueDays := Some(dueDays), frequencyDays := None, nextRunAt := Some(next));
      }
      if row.frequencyDays.Some? && row.scheduleDay.Some? && !e.clearSchedule && e.scheduleDay.None? {
        row := DropSchedule(row);
      }
    }

    /** `campaign_progress`: all items of a campaign, and those decided. */
    method CampaignProgress(c: CampaignId) returns (total: nat, decided: nat)
      ensures total == Count(items, c, ALL_DECISIONS) && decided == Count(items, c, DECIDED)
    {
      total, decided := 0, 0;
      for k := 0 to |items|
        invariant total == Count(items[..k], c, ALL_DECISIONS) && decided == Count(items[..k], c, DECIDED)
      {
        assert items[..k + 1][..k] == items[..k];
        if items[k].campaign == c {
          total := total + 1;
          if !items[k].decision.Pending? {
            decided := decided + 1;
          }
        }
      }
      assert items[..|items|] == items;
    }

    /** `campaign_outcomes`: the items of a campaign grouped by decision. They add up to its total. */
    method CampaignOutcomes(c: CampaignId) returns (outcomes: map<Decision, nat>)
      ensures outcomes.Keys == ALL_DECISIONS
      ensures forall d :: d in outcomes ==> outcomes[d] == Count(items, c, {d})
      ensures outcomes[Pending] + outcomes[Approved] + outcomes[Revoked] + outcomes[AutoRevoked]
              == Count(items, c, ALL_DECISIONS)
    {
      outcomes := map[Pending := 0, Approved := 0, Revoked := 0, AutoRevoked := 0];
      for k := 0 to |items|
        invariant outcomes.Keys == ALL_DECISIONS
        invariant forall d :: d in outcomes ==> outcomes[d] == Count(items[..k], c, {d})
      {
        assert items[..k + 1][..k] == items[..k];
        if items[k].campaign == c {
          assert items[k].decision in ALL_DECISIONS by {
            match items[k].decision { case Pending => case Approved => case Revoked => case AutoRevoked => }
          }
          outcomes := outcomes[items[k].decision := outcomes[items[k].decision] + 1];
        }
      }
      assert items[..|items|] == items;
      OutcomesPartition(items, c);
    }

    /** `revoke_assignment` as far as the reviews depend on it. */
    method RevokeAssignment(a: AssignmentId, env: Env) returns (outcome: RevokeOutcome)
      requires a < |assignments|
      modifies this`assignments
      ensures (Db(), outcome) == Revoke(old(Db()), a, env)
    {
      if assignments[a].status.Final() {
        return AlreadyFinal;
      }
      match env.revoke(a) {
        case Refuses =>
          outcome := Failed;
        case Removed(cascade) =>
          assignments := MarkWithdrawn(assignments, {a} + cascade);
          outcome := Done;
      }
    }

    /** `_maybe_spawn_recurrence`; raised: the due date of the next cycle cannot be expressed, and nothing catches
        that. */
    method MaybeSpawnRecurrence(c: CampaignId, env: Env) returns (raised: bool)
      requires Valid() && c < |campaigns|
      modifies this
      ensures Valid() && Db() == Spawn(old(Db()), c, env)
      ensures raised == RepeatsPastCalendar(old(campaigns)[c], env.now)
    {
      hide Keeps;
      var row := campaigns[c];
      if row.frequencyDays.None? {
        return false;
      }
      if LAST < env.now + row.frequencyDays.value * DAY {
        return true;
      }
      raised := false;
      if row.workflow.Some? {
        return;
      }
      RecurrenceFormValidExactly(row, env.now);
      hide RowShape, PeopleExist, ValidForm, Matching, NewRow;
      var next := CreateCampaign(RecurrenceForm(row, env.now), env);
      if next.Success? {
        campaigns := campaigns[next.value := campaigns[next.value].(parent := Some(c))];
      }
    }

    /** `decide_item`. The campaign's status is never looked at before the decision is recorded. */
    method DecideItem(k: ItemId, verdict: Verdict, actor: Actor, env: Env) returns (r: Result<(), Error>)
      requires Valid()
      modifies this
      ensures Valid() && Keeps(old(Db()), Db())
      ensures Answer(Db(), r) == Decide(old(Db()), k, verdict, actor, env)
    {
      ghost var s := Db();
      if Inv(s) {
        DecideKeepsInv(s, k, verdict, actor, env);
      }
      assert Keeps(s, Decide(s, k, verdict, actor, env).s);
      hide RowShape, PeopleExist, Keeps, Authorize, DecideAs;
      if k >= |items| {
        return Failure(ItemNotFound);
      }
      var item := items[k];
      if !item.decision.Pending? {
        return Failure(AlreadyProcessed);
      }
      if campaigns[item.campaign].workflow.Some? {
        return Failure(RoutedThroughWorkflow);
      }
      var decider := Authorize(campaigns[item.campaign], actor, env.now);
      if decider.Failure? {
        return Failure(decider.error);
      }
      r := DecideAuthorized(k, verdict, decider.value, env);
    }

    /** The rest of `decide_item`: revoke if asked to, record the decision, close the campaign if it was the last. */
    method DecideAuthorized(k: ItemId, verdict: Verdict, decider: Option<UserId>, env: Env)
      returns (r: Result<(), Error>)
      requires Valid() && k < |items|
      modifies this
      ensures Valid() && Answer(Db(), r) == DecideAs(old(Db()), k, verdict, decider, env)
    {
      var c := items[k].campaign;
      hide RowShape, PeopleExist, CloseWhenDone, Closes;
      if verdict.TakeAway? {
        var outcome := RevokeAssignment(items[k].assignment, env);
        if outcome.Failed? {
          return Failure(RevokeFailed);
        }
      }
      ghost var s1 := Db();
      var decision := if verdict.Approve? then Approved else Revoked;
      items := items[k := items[k].(decision := decision, decidedBy := decider, decidedAt := Some(env.now))];
      assert Db() == RecordDecision(s1, k, verdict, decider, env);
      var raised := CloseIfDone(c, env);
      r := if raised then Failure(NextCyclePastCalendar) else Success(());
    }

    /** The end of `decide_item`: an open campaign with nothing left to decide is completed. */
    method CloseIfDone(c: CampaignId, env: Env) returns (raised: bool)
      requires Valid() && c < |campaigns|
      modifies this
      ensures Valid() && Db() == CloseWhenDone(old(Db()), c, env)
      ensures raised == (Closes(old(Db()), c) && RepeatsPastCalendar(old(campaigns)[c], env.now))
    {
      ghost var s := Db();
      hide RowShape, PeopleExist, Spawn, Count;
      var total, decided := CampaignProgress(c);
      raised := false;
      if decided >= total && campaigns[c].status.Active? {
        campaigns := campaigns[c := campaigns[c].(status := Completed, completedAt := Some(env.now))];
        assert Db() == Finish(s, c, env);
        raised := MaybeSpawnRecurrence(c, env);
      }
    }

    /** `complete_campaign`: resolve what is pending, one item at a time, then close. */
    method CompleteCampaign(c: CampaignId, env: Env) returns (r: Result<(), Error>)
      requires Valid() && (c < |campaigns| && campaigns[c].status.Active? ==> campaigns[c].workflow.None?)
      modifies this
      ensures Valid() && Keeps(old(Db()), Db())
      ensures Answer(Db(), r) == Complete(old(Db()), c, env)
    {
      ghost var s := Db();
      if Inv(s) {
        CompleteKeepsInv(s, c, env);
      }
      assert Keeps(s, Complete(s, c, env).s);
      hide RowShape, PeopleExist, Keeps, Spawn;
      if c >= |campaigns| {
        return Failure(CampaignNotFound);
      }
      if !campaigns[c].status.Active? {
        return Failure(AlreadyProcessed);
      }
      ResolvePending(PendingBelow(items, c, |items|), campaigns[c].onNoResponse, env);
      ghost var s1 := Db();
      campaigns := campaigns[c := campaigns[c].(status := Completed, completedAt := Some(env.now))];
      assert Db() == Finish(s1, c, env);
      var raised := MaybeSpawnRecurrence(c, env);
      r := if raised then Failure(NextCyclePastCalendar) else Success(());
    }

    /** The loop of `complete_campaign`: keep the access, or revoke it and swallow any failure. */
    method ResolvePending(pending: seq<ItemId>, keep: NoResponse, env: Env)
      requires WellFormed(Db()) && forall j :: 0 <= j < |pending| ==> pending[j] < |items|
      modifies this`items, this`assignments
      ensures Db() == CloseItems(old(Db()), pending, keep, env)
    {
      hide RowShape, PeopleExist, Revoke;
      ghost var s := Db();
      for j := 0 to |pending|
        invariant WellFormed(Db()) && |items| == |s.items|
        invariant CloseItems(Db(), pending[j..], keep, env) == CloseItems(s, pending, keep, env)
      {
        ghost var s1 := Db();
        var k := pending[j];
        assert pending[j..][0] == k && pending[j..][1..] == pending[j + 1..];
        if keep.KeepAccess? {
          items := items[k := items[k].(decision := Approved, decidedAt := Some(env.now))];
        } else {
          var _ := RevokeAssignment(items[k].assignment, env);
          items := items[k := items[k].(decision := AutoRevoked, decidedAt := Some(env.now))];
        }
        assert Db() == CloseItem(s1, k, keep, env);
      }
    }

    /** `sweep_overdue_campaigns`: the overdue campaigns are closed one by one, until one raises an error that nothing
        catches; how many were closed is reported. */
    method SweepOverdueCampaigns(env: Env) returns (closed: nat, crashed: bool)
      requires Valid()
      requires forall c :: 0 <= c < |campaigns| && Overdue(campaigns[c], env.now) ==> campaigns[c].workflow.None?
      modifies this
      ensures Valid() && Keeps(old(Db()), Db()) && Closing(Db(), closed, crashed) == SweepOverdue(old(Db()), env)
    {
      SweepsKeep(Db(), env);
      OverdueAreOpen(Db(), env.now);
      hide RowShape, PeopleExist, Keeps, CloseUntil, AllClosable;
      closed, crashed := CloseOverdue(OverdueIds(Db(), env.now), env);
    }

    /** The loop of `sweep_overdue_campaigns`. */
    method CloseOverdue(overdue: seq<CampaignId>, env: Env) returns (closed: nat, crashed: bool)
      requires Valid() && AllClosable(Db(), overdue)
      modifies this
      ensures Valid() && Closing(Db(), closed, crashed) == CloseUntil(old(Db()), overdue, env)
    {
      hide RowShape, PeopleExist, Keeps, Complete, AllClosable, CloseUntil;
      ghost var s := Db();
      closed, crashed := 0, false;
      for i := 0 to |overdue|
        invariant Valid() && AllClosable(Db(), overdue[i..]) && !crashed
        invariant var rest := CloseUntil(Db(), overdue[i..], env);
                  rest.(closed := closed + rest.closed) == CloseUntil(s, overdue, env)
      {
        assert overdue[i..][0] == overdue[i] && overdue[i..][1..] == overdue[i + 1..];
        OverdueTail(Db(), overdue[i..], env);
        var r := CompleteCampaign(overdue[i], env);
        if r == Failure(NextCyclePastCalendar) {
          return closed, true;
        }
        if r.Success? {
          closed := closed + 1;
        }
      }
      assert overdue[|overdue|..] == [];
      NothingLeftToClose(Db(), env);
    }

    /** `sweep_scheduled_campaigns`: the due holders at the start of the sweep are served one by one, until one of them
        raises an error that nothing catches. */
    method SweepScheduledCampaigns(env: Env) returns (started: nat, crashed: bool)
      requires Valid()
      modifies this
      ensures Valid() && Keeps(old(Db()), Db()) && Sweep(Db(), started, crashed) == SweepScheduled(old(Db()), env)
    {
      SweepsKeep(Db(), env);
      DueAreDue(Db(), env.now);
      hide RowShape, PeopleExist, Keeps, StartNext, StartAll, AllDue, AllStartable;
      started, crashed := ServeHolders(DueIds(Db(), env.now), env);
    }

    /** The loop of `sweep_scheduled_campaigns`. */
    method ServeHolders(holders: seq<CampaignId>, env: Env) returns (started: nat, crashed: bool)
      requires Valid() && AllStartable(Db(), holders, env.now)
      modifies this
      ensures Valid() && Sweep(Db(), started, crashed) == StartAll(old(Db()), holders, env)
    {
      hide RowShape, PeopleExist, StartNext, StartAll, AllDue;
      ghost var s := Db();
      started, crashed := 0, false;
      for i := 0 to |holders|
        invariant Valid() && AllStartable(Db(), holders[i..], env.now) && !crashed
        invariant var rest := StartAll(Db(), holders[i..], env);
                  rest.(started := started + rest.started) == StartAll(s, holders, env)
      {
        assert holders[i..][0] == holders[i] && holders[i..][1..] == holders[i + 1..];
        ScheduledTail(Db(), holders[i..], env);
        var wasStarted;
        wasStarted, crashed := ServeHolder(holders[i], env);
        if crashed {
          return;
        }
        if wasStarted {
          started := started + 1;
        }
      }
      assert holders[|holders|..] == [];
      NothingLeftToStart(Db(), env);
    }

    /** One turn of the loop of `sweep_scheduled_campaigns`: skip, start, or report a failed start. A skipped start is
        told to the reviewer; without one the commit is refused, and the new date is rolled back with it. */
    method ServeHolder(h: CampaignId, env: Env) returns (started: bool, crashed: bool)
      requires Valid() && h < |campaigns| && Due(campaigns[h], env.now)
      modifies this
      ensures Valid()
      ensures var x := StartNext(old(Db()), h, env);
              crashed == x.Crashed? && started == x.Started? && Db() == if crashed then old(Db()) else x.s
    {
      ScheduledFormValidExactly(campaigns[h], env.now);
      RoutedOneWay(campaigns[h]);
      hide RowShape, PeopleExist, ValidForm, Keeps, NextRun, TryCreate;
      var holder := campaigns[h];
      var following, _ := ComputeNextRun(env.zone, TimingOf(holder), env.now);
      started, crashed := false, false;
      if holder.status.Active? {
        if holder.reviewer.None? {
          return false, true;
        }
        campaigns := campaigns[h := holder.(nextRunAt := Some(following))];
        return;
      }
      var request := ScheduledForm(holder, env.now);
      if !ValidForm(request) {
        return false, true;
      }
      started := StartOver(h, request, following, env);
    }

    /** Starts the next campaign of a closed holder, and hands the schedule over; a start that fails is tried again at
        the following slot. */
    method StartOver(h: CampaignId, request: Form, following: int, env: Env) returns (started: bool)
      requires Valid() && h < |campaigns| && campaigns[h].scheduleDay.Some? && campaigns[h].status.Completed?
      requires ValidForm(request) && request.workflow.None?
      modifies this
      ensures match TryCreate(old(Db()), request, env)
              case Refused(_) => !started && Db() == SetNextRun(old(Db()), h, Some(following))
              case Stranded(s1) => !started && Db() == SetNextRun(s1, h, Some(following))
              case Created(s1) =>
                started && Db() == SetNextRun(SetParent(s1, old(|campaigns|), h), h, None)
      ensures Valid()
    {
      hide RowShape, PeopleExist, ValidForm, Keeps, NewRow, Matching, MissingReference;
      var next := CreateCampaign(request, env);
      started := next.Success?;
      if started {
        campaigns := campaigns[next.value := campaigns[next.value].(parent := Some(h))];
        campaigns := campaigns[h := campaigns[h].(nextRunAt := None)];
      } else {
        campaigns := campaigns[h := campaigns[h].(nextRunAt := Some(following))];
      }
    }
  }

  /** A step keeps the invariant, and only lets the tables evolve. */
  ghost predicate Keeps(s: Store, t: Store) { Inv(s) ==> Inv(t) && Evolves(s, t) }

  lemma CreateKeeps(s: Store, f: Form, env: Env)
    requires WellFormed(s) && ValidForm(f) && f.workflow.None?
    ensures Keeps(s, s)
    ensures var t := TryCreate(s, f, env); !t.Refused? ==> Keeps(s, t.s)
  {
    EvolvesReflexive(s);
    if Inv(s) {
      CreateKeepsInv(s, f, env);
    }
  }

  lemma SweepsKeep(s: Store, env: Env)
    requires WellFormed(s)
    ensures Keeps(s, SweepOverdue(s, env).s) && Keeps(s, SweepScheduled(s, env).s)
  {
    hide RowShape, PeopleExist, CloseUntil, StartAll, Chained, Settled, Live, Evolves;
    if Inv(s) {
      CloseUntilKeepsInv(s, OverdueIds(s, env.now), env);
      StartAllKeepsInv(s, DueIds(s, env.now), env);
    }
  }

  lemma MatchingIgnoresReviews(s: Store, t: Store, c: Scope, env: Env)
    requires ValidScope(c) && t.assignments == s.assignments && t.users == s.users
    ensures Matching(t, c, env) == Matching(s, c, env)
  {
  }

  /** Open campaigns with a reviewer, each named once. */
  predicate AllClosable(s: Store, ids: seq<CampaignId>) {
    AllOpen(s, ids) && forall j :: 0 <= j < |ids| ==> s.campaigns[ids[j]].workflow.None?
  }

  lemma OverdueAreOpen(s: Store, now: int)
    requires forall c :: 0 <= c < |s.campaigns| && Overdue(s.campaigns[c], now) ==> s.campaigns[c].workflow.None?
    ensures AllClosable(s, OverdueIds(s, now))
  {
  }

  lemma NothingLeftToClose(s: Store, env: Env)
    requires WellFormed(s)
    ensures CloseUntil(s, [], env) == Closing(s, 0, false)
  {
  }

  /** Closing the first of several open campaigns leaves the others open, unless it ends the sweep. */
  lemma OverdueTail(s: Store, ids: seq<CampaignId>, env: Env)
    requires WellFormed(s) && ids != [] && AllClosable(s, ids)
    ensures ids[0] < |s.campaigns| && s.campaigns[ids[0]].workflow.None?
    ensures var r := Complete(s, ids[0], env);
            if r.result == Failure(NextCyclePastCalendar) then CloseUntil(s, ids, env) == Closing(r.s, 0, true)
            else
              && AllClosable(r.s, ids[1..])
              && CloseUntil(s, ids, env)
                 == var rest := CloseUntil(r.s, ids[1..], env);
                    rest.(closed := rest.closed + (if r.result.Success? then 1 else 0))
  {
    hide RowShape, PeopleExist, CloseItems, Spawn;
    var s1 := CloseItems(s, PendingBelow(s.items, ids[0], |s.items|), s.campaigns[ids[0]].onNoResponse, env);
    SpawnKeepsRows(Finish(s1, ids[0], env), ids[0], env);
    assert forall j :: 0 <= j < |ids[1..]| ==> ids[1..][j] == ids[j + 1];
  }

  lemma SpawnKeepsRows(s: Store, c: CampaignId, env: Env)
    requires WellFormed(s) && c < |s.campaigns|
    ensures var t := Spawn(s, c, env);
            |s.campaigns| <= |t.campaigns| && forall i :: 0 <= i < |s.campaigns| ==> t.campaigns[i] == s.campaigns[i]
  {
    hide RowShape, PeopleExist, ValidForm, NewRow, Matching, MissingReference;
    if s.campaigns[c].frequencyDays.Some? {
      RecurrenceFormValidExactly(s.campaigns[c], env.now);
    }
  }

  /** Holders that are due, each named once; their schedule is whole, so they can be served. */
  predicate AllStartable(s: Store, ids: seq<CampaignId>, now: int) {
    && Distinct(ids) && AllDue(s, ids, now)
    && forall j :: 0 <= j < |ids| ==> ids[j] < |s.campaigns| && s.campaigns[ids[j]].scheduleDay.Some?
  }

  lemma DueAreDue(s: Store, now: int)
    ensures AllStartable(s, DueIds(s, now), now)
  {
  }

  lemma NothingLeftToStart(s: Store, env: Env)
    requires WellFormed(s)
    ensures StartAll(s, [], env) == Sweep(s, 0, false)
  {
  }

  /** Serving the first of several due holders leaves the others due, unless it ends the sweep. */
  lemma ScheduledTail(s: Store, ids: seq<CampaignId>, env: Env)
    requires WellFormed(s) && ids != [] && AllStartable(s, ids, env.now)
    ensures ids[0] < |s.campaigns| && Due(s.campaigns[ids[0]], env.now)
    ensures var x := StartNext(s, ids[0], env);
            if x.Crashed? then StartAll(s, ids, env) == Sweep(s, 0, true)
            else
              && AllStartable(x.s, ids[1..], env.now)
              && StartAll(s, ids, env)
                 == var rest := StartAll(x.s, ids[1..], env);
                    rest.(started := rest.started + (if x.Started? then 1 else 0))
  {
    hide RowShape, PeopleExist, StartNext, ContinuesSchedule;
    StartNextEffect(s, ids[0], env);
    assert forall j :: 0 <= j < |ids[1..]| ==> ids[1..][j] == ids[j + 1];
  }
}
