/** Whole runs: any interleaving of the engine's steps with whatever the rest of the system does to users, resources
    and assignments. No order is assumed between the clock readings of the steps. */
module ReviewRuns {
  import opened Wrappers
  import opened Schedule
  import opened ReviewRows
  import opened ReviewModel
  import opened ReviewInvariant

  datatype Step =
    | CreateStep(form: ReviewerForm, env: Env)
    | UpdateStep(campaign: CampaignId, edit: EditForm, env: Env)
    | DecideStep(item: ItemId, verdict: Verdict, actor: Actor, env: Env)
    | CompleteStep(campaign: CampaignId, env: Env)
    | OverdueStep(env: Env)
    | ScheduledStep(env: Env)
    | WorldStep(next: Store)

  /** The other services never touch the review tables, never delete an assignment or somebody a campaign names (a
      foreign key), and never leave a final status. */
  predicate WorldMay(s: Store, t: Store) {
    && (forall i :: 0 <= i < |s.campaigns| ==> PeopleExist(s.campaigns[i], t.users.Keys))
    && t.campaigns == s.campaigns && t.items == s.items && |s.assignments| <= |t.assignments|
    && forall a :: 0 <= a < |s.assignments| && s.assignments[a].status.Final() ==>
         t.assignments[a].status == s.assignments[a].status
  }

  function Apply(s: Store, step: Step): (t: Store)
    requires WellFormed(s)
    ensures WellFormed(t)
  {
    match step
    case CreateStep(form, env) => Create(s, form, env).s
    case UpdateStep(c, edit, env) => Update(s, c, edit, env).s
    case DecideStep(k, verdict, actor, env) => Decide(s, k, verdict, actor, env).s
    case CompleteStep(c, env) => Complete(s, c, env).s
    case OverdueStep(env) => SweepOverdue(s, env).s
    case ScheduledStep(env) => SweepScheduled(s, env).s
    case WorldStep(t) => if WorldMay(s, t) then t else s
  }

  function Run(s: Store, steps: seq<Step>): (t: Store)
    requires WellFormed(s)
    ensures WellFormed(t)
  {
    if steps == [] then s else Apply(Run(s, steps[..|steps| - 1]), steps[|steps| - 1])
  }

  lemma StepKeepsInv(s: Store, step: Step)
    requires Inv(s)
    ensures Inv(Apply(s, step)) && Evolves(s, Apply(s, step))
  {
    hide RowShape, PeopleExist, Chained, Settled, Live, Evolves, Decide, Update, Complete, CloseUntil, StartAll;
    EvolvesReflexive(s);
    match step
    case CreateStep(form, env) => CreateKeepsInv(s, form, env);
    case UpdateStep(c, edit, env) => UpdateKeepsInv(s, c, edit, env);
    case DecideStep(k, verdict, actor, env) => DecideKeepsInv(s, k, verdict, actor, env);
    case CompleteStep(c, env) => CompleteKeepsInv(s, c, env);
    case OverdueStep(env) => CloseUntilKeepsInv(s, OverdueIds(s, env.now), env);
    case ScheduledStep(env) => StartAllKeepsInv(s, DueIds(s, env.now), env);
    case WorldStep(t) => WorldKeepsInv(s, t);
  }

  lemma WorldKeepsInv(s: Store, t: Store)
    requires Inv(s)
    ensures WorldMay(s, t) ==> Inv(t) && Evolves(s, t)
  {
    hide RowShape, PeopleExist;
    if WorldMay(s, t) {
      forall c: CampaignId
        ensures Live(t, c)
      {
        assert Live(s, c);
      }
    }
  }

  /** Every run keeps the invariant, and whatever it reaches has evolved from where it started. */
  lemma {:induction false} RunKeepsInv(s: Store, steps: seq<Step>)
    requires Inv(s)
    ensures Inv(Run(s, steps)) && Evolves(s, Run(s, steps))
  {
    hide RowShape, PeopleExist, Chained, Settled, Live, Evolves, Apply;
    if steps == [] {
      EvolvesReflexive(s);
    } else {
      var t := Run(s, steps[..|steps| - 1]);
      RunKeepsInv(s, steps[..|steps| - 1]);
      StepKeepsInv(t, steps[|steps| - 1]);
      EvolvesTransitive(s, t, Run(s, steps));
    }
  }

  ghost predicate Reachable(s: Store) {
    exists start: Store, steps: seq<Step> ::
      start.campaigns == [] && start.items == [] && s == Run(start, steps)
  }

  lemma ReachableStoresKeepInv(s: Store)
    requires Reachable(s)
    ensures Inv(s)
  {
    var start: Store, steps: seq<Step> :|
      start.campaigns == [] && start.items == [] && s == Run(start, steps);
    assert Inv(start);
    hide RowShape, PeopleExist, Core, Apply, Live;
    RunKeepsInv(start, steps);
  }

  /** What the invariant means for anybody looking at the tables of a running system. */
  lemma ReachableStoresAreSafe(s: Store)
    requires Reachable(s)
    ensures forall i :: 0 <= i < |s.campaigns| ==>
              var r := s.campaigns[i];
              && !(r.frequencyDays.Some? && r.scheduleDay.Some?)
              && (r.nextRunAt.Some? ==> r.scheduleDay.Some? && r.scheduleTime.Some? && r.scheduleDueDays.Some?
                                        && r.scheduleEvery.Some? && 1 <= r.scheduleEvery.value)
              && (r.status.Active? && r.scheduleDay.Some? ==> r.nextRunAt.Some?)
              && (r.parent.Some? ==> r.parent.value < i && s.campaigns[r.parent.value].status.Completed?
                                     && s.campaigns[r.parent.value].nextRunAt.None?)
    ensures forall i, j :: 0 <= i < j < |s.campaigns| && s.campaigns[i].parent.Some? ==>
              s.campaigns[i].parent != s.campaigns[j].parent
    ensures forall k :: 0 <= k < |s.items| ==>
              var x := s.items[k];
              && x.campaign < |s.campaigns| && x.assignment < |s.assignments|
              && (s.campaigns[x.campaign].status.Completed? ==> !x.decision.Pending?)
              && (x.decision.Revoked? ==> !s.assignments[x.assignment].status.Live())
    ensures forall c :: 0 <= c < |s.campaigns| && s.campaigns[c].status.Active? && HasItem(s.items, c) ==>
              HasPending(s.items, c)
  {
    ReachableStoresKeepInv(s);
    forall c | 0 <= c < |s.campaigns| && s.campaigns[c].status.Active? && HasItem(s.items, c)
      ensures HasPending(s.items, c)
    {
      assert Live(s, c);
    }
  }

  // ----- chains

  /** The first campaign of the chain a campaign belongs to. */
  function Root(s: Store, i: CampaignId): CampaignId
    requires WellFormed(s) && i < |s.campaigns|
    decreases i
  {
    match s.campaigns[i].parent
    case None => i
    case Some(p) => Root(s, p)
  }

  /** Of two campaigns of one chain, the earlier one is closed and has handed its schedule over. So a chain has at
      most one open campaign and at most one schedule, and both belong to its last campaign. */
  lemma {:induction false} OnlyTheLastOfAChainIsOpen(s: Store, i: CampaignId, j: CampaignId)
    requires Inv(s) && i < j < |s.campaigns| && Root(s, i) == Root(s, j)
    ensures s.campaigns[i].status.Completed? && s.campaigns[i].nextRunAt.None?
  {
    hide RowShape, PeopleExist, Settled, Live;
    var child := NextInChain(s, i, j);
    assert s.campaigns[child].parent == Some(i);
  }

  /** The child of i on the way to j. */
  lemma {:induction false} NextInChain(s: Store, i: CampaignId, j: CampaignId) returns (child: CampaignId)
    requires WellFormed(s) && Chained(s) && i < j < |s.campaigns| && Root(s, i) == Root(s, j)
    ensures i < child <= j && s.campaigns[child].parent == Some(i)
    decreases j
  {
    hide RowShape, PeopleExist;
    RootIsEarliest(s, i);
    var p := s.campaigns[j].parent.value;
    if p == i {
      child := j;
    } else if i < p {
      child := NextInChain(s, i, p);
    } else {
      var other := NextInChain(s, p, i);
      assert false;
    }
  }

  lemma {:induction false} RootIsEarliest(s: Store, i: CampaignId)
    requires WellFormed(s) && i < |s.campaigns|
    ensures Root(s, i) <= i && s.campaigns[Root(s, i)].parent.None?
    decreases i
  {
    hide RowShape, PeopleExist;
    if s.campaigns[i].parent.Some? {
      RootIsEarliest(s, s.campaigns[i].parent.value);
    }
  }

  // ----- decisions

  /** Once a campaign is closed, no step of any run changes its row (beyond its schedule) or any of its items. */
  lemma ClosedCampaignsAreFrozen(s: Store, steps: seq<Step>, c: CampaignId)
    requires Inv(s) && c < |s.campaigns| && s.campaigns[c].status.Completed?
    ensures var t := Run(s, steps);
            && c < |t.campaigns| && t.campaigns[c] == s.campaigns[c].(nextRunAt := t.campaigns[c].nextRunAt)
            && forall k :: 0 <= k < |t.items| && t.items[k].campaign == c ==>
                 k < |s.items| && t.items[k] == s.items[k]
  {
    RunKeepsInv(s, steps);
    hide RowShape, PeopleExist, Run, Live;
    var t := Run(s, steps);
    assert RowEvolves(s.campaigns[c], t.campaigns[c]);
    forall k | 0 <= k < |t.items| && t.items[k].campaign == c
      ensures k < |s.items| && t.items[k] == s.items[k]
    {
      if k < |s.items| {
        assert ItemEvolves(s.items[k], t.items[k]);
      }
    }
  }

  /** A decision changes at most once, and the roster of a campaign never changes: the same items review the same
      assignments, with the copies made at the start. */
  lemma RosterAndDecisionsAreFixed(s: Store, steps: seq<Step>, k: ItemId)
    requires Inv(s) && k < |Run(s, steps).items| && Run(s, steps).items[k].campaign < |s.campaigns|
    ensures var t := Run(s, steps);
            && k < |s.items|
            && t.items[k] == s.items[k].(decision := t.items[k].decision, decidedBy := t.items[k].decidedBy,
                                         decidedAt := t.items[k].decidedAt)
            && (!s.items[k].decision.Pending? ==> t.items[k] == s.items[k])
  {
    RunKeepsInv(s, steps);
    hide RowShape, PeopleExist, Run, Live;
  }

  /** The items of a campaign that carry one of these decisions. */
  function ItemsWith(items: seq<Item>, c: CampaignId, ds: set<Decision>): set<ItemId> {
    set k | 0 <= k < |items| && items[k].campaign == c && items[k].decision in ds :: k
  }

  /** Counting counts each of those items once. */
  lemma {:induction false} CountIsCardinality(items: seq<Item>, c: CampaignId, ds: set<Decision>)
    ensures Count(items, c, ds) == |ItemsWith(items, c, ds)|
  {
    if items != [] {
      var n := |items| - 1;
      CountIsCardinality(items[..n], c, ds);
      var last: set<ItemId> := if items[n].campaign == c && items[n].decision in ds then {n} else {};
      assert ItemsWith(items, c, ds) == ItemsWith(items[..n], c, ds) + last;
    }
  }

  /** Counting over two disjoint sets of decisions adds up. */
  lemma {:induction false} CountAdds(items: seq<Item>, c: CampaignId, ds: set<Decision>, es: set<Decision>)
    requires ds !! es
    ensures Count(items, c, ds + es) == Count(items, c, ds) + Count(items, c, es)
  {
    if items != [] {
      CountAdds(items[..|items| - 1], c, ds, es);
    }
  }

  /** The four outcomes of `campaign_outcomes` partition the total of `campaign_progress`. */
  lemma OutcomesPartition(items: seq<Item>, c: CampaignId)
    ensures Count(items, c, ALL_DECISIONS)
            == Count(items, c, {Pending}) + Count(items, c, {Approved})
             + Count(items, c, {Revoked}) + Count(items, c, {AutoRevoked})
    ensures Count(items, c, ALL_DECISIONS) == Count(items, c, {Pending}) + Count(items, c, DECIDED)
  {
    hide Count;
    CountAdds(items, c, {Approved}, {Revoked});
    CountAdds(items, c, {Approved, Revoked}, {AutoRevoked});
    CountAdds(items, c, {Pending}, DECIDED);
    assert {Approved} + {Revoked} == {Approved, Revoked} && {Approved, Revoked} + {AutoRevoked} == DECIDED;
    assert {Pending} + DECIDED == ALL_DECISIONS;
  }

  /** The outcomes add up, a closed campaign has nothing pending, and an open one is never fully decided unless it
      reviews nothing. */
  lemma OutcomesAddUp(s: Store, c: CampaignId)
    requires Inv(s) && c < |s.campaigns|
    ensures Count(s.items, c, ALL_DECISIONS)
            == Count(s.items, c, {Pending}) + Count(s.items, c, {Approved})
             + Count(s.items, c, {Revoked}) + Count(s.items, c, {AutoRevoked})
    ensures Count(s.items, c, ALL_DECISIONS) == Count(s.items, c, {Pending}) + Count(s.items, c, DECIDED)
    ensures s.campaigns[c].status.Completed? ==> Count(s.items, c, {Pending}) == 0
    ensures s.campaigns[c].status.Active? ==>
              Count(s.items, c, ALL_DECISIONS) == 0 || Count(s.items, c, {Pending}) > 0
  {
    hide RowShape, PeopleExist, Chained, Count;
    OutcomesPartition(s.items, c);
    CountsTellPending(s.items, c);
    if s.campaigns[c].status.Active? && Count(s.items, c, {Pending}) == 0 {
      assert Live(s, c);
      CountNone(s.items, c, ALL_DECISIONS);
    }
  }

  lemma {:induction false} CountNone(items: seq<Item>, c: CampaignId, ds: set<Decision>)
    requires !HasItem(items, c)
    ensures Count(items, c, ds) == 0
  {
    if items != [] {
      assert forall k :: 0 <= k < |items| - 1 ==> items[..|items| - 1][k] == items[k];
      CountNone(items[..|items| - 1], c, ds);
    }
  }

  /** So many hours, each a 24th of a day, have passed since then. */
  predicate HoursPassed(since: int, hours: Option<int>, now: int) {
    hours.None? || hours.value * DAY <= 24 * (now - since)
  }

  /** Who may decide: an administrator, the reviewer, or the fallback reviewer once the waiting time is over. */
  predicate MayDecide(r: Campaign, actor: Actor, now: int) {
    || actor.isAdmin
    || (actor.id.Some? && actor.id == r.reviewer)
    || (actor.id.Some? && actor.id == r.fallback && HoursPassed(r.createdAt, r.unlockHours, now))
  }

  /** What somebody is told who may not. */
  function Denial(r: Campaign, actor: Actor): Error {
    if actor.id.None? || actor.id != r.fallback then AccessDenied
    else if r.unlockHours.Some? && LAST < r.createdAt + r.unlockHours.value * HOUR then UnlockPastCalendar
    else FallbackNotYetAvailable
  }

  lemma AuthorizedExactly(r: Campaign, actor: Actor, now: Clock)
    ensures Authorize(r, actor, now)
            == if MayDecide(r, actor, now) then Success(actor.id) else Failure(Denial(r, actor))
  {
  }

  /** The decision was recorded; the error of a next cycle that cannot be dated comes after that. */
  predicate Recorded(a: Answer<()>) { a.result.Success? || a.result == Failure(NextCyclePastCalendar) }

  /** A decision is recorded exactly when the item exists and is undecided, its campaign is not routed through a
      workflow, the actor may decide, and a revoke finds the access final or is not refused. Otherwise nothing
      changes, and this is the error. */
  lemma DecisionIsRecordedExactly(s: Store, k: ItemId, verdict: Verdict, actor: Actor, env: Env)
    requires WellFormed(s)
    ensures var a := Decide(s, k, verdict, actor, env);
            && (Recorded(a) <==>
                  && k < |s.items| && s.items[k].decision.Pending?
                  && s.campaigns[s.items[k].campaign].workflow.None?
                  && MayDecide(s.campaigns[s.items[k].campaign], actor, env.now)
                  && (verdict.TakeAway? ==> s.assignments[s.items[k].assignment].status.Final()
                                            || !env.revoke(s.items[k].assignment).Refuses?))
            && (!Recorded(a) ==>
                  && a.s == s
                  && a.result == Failure(
                       if k >= |s.items| then ItemNotFound
                       else if !s.items[k].decision.Pending? then AlreadyProcessed
                       else if s.campaigns[s.items[k].campaign].workflow.Some? then RoutedThroughWorkflow
                       else if !MayDecide(s.campaigns[s.items[k].campaign], actor, env.now)
                       then Denial(s.campaigns[s.items[k].campaign], actor)
                       else RevokeFailed))
  {
    hide RowShape, PeopleExist, CloseWhenDone, Closes, Authorize, MayDecide;
    if k < |s.items| {
      AuthorizedExactly(s.campaigns[s.items[k].campaign], actor, env.now);
    }
  }

  /** Who, besides the administrators, may decide once an edit of a campaign is stored: the reviewer asked for or else
      the one it had, and unless the edit clears it the fallback reviewer asked for or else the one it had, after the
      waiting time asked for or else the one it had. */
  predicate MayDecideAfter(r: Campaign, e: Edit, u: UserId, now: int) {
    || Some(u) == (if e.reviewer.Some? then e.reviewer else r.reviewer)
    || (&& !e.clearFallback && Some(u) == (if e.fallback.Some? then e.fallback else r.fallback)
        && HoursPassed(r.createdAt, if e.unlockHours.Some? then e.unlockHours else r.unlockHours, now))
  }

  /** An edit takes effect at once on everything still undecided: whoever it names may decide an item from then on, and
      nobody else who is not an administrator may, the former reviewer included. For who may, approving always works,
      and revoking does exactly when the access is final already or the directory does not refuse. */
  lemma EditTakesEffectAtOnce(s: Store, c: CampaignId, e: EditForm, env: Env, k: ItemId, u: UserId, later: Env)
    requires WellFormed(s) && Update(s, c, e, env).result.Success? && s.campaigns[c].workflow.None?
    requires k < |s.items| && s.items[k].campaign == c && s.items[k].decision.Pending?
    ensures var t := Update(s, c, e, env).s; var actor := Actor(Some(u), false);
            var may := MayDecideAfter(s.campaigns[c], e, u, later.now);
            var a := s.items[k].assignment;
            && a < |s.assignments|
            && (Recorded(Decide(t, k, Approve, actor, later)) <==> may)
            && (Recorded(Decide(t, k, TakeAway, actor, later))
                <==> may && (s.assignments[a].status.Final() || !later.revoke(a).Refuses?))
  {
    hide RowShape, PeopleExist, Update, Decide, RecursAsAsked;
    UpdateExactly(s, c, e, env);
    var t := Update(s, c, e, env).s;
    DecisionIsRecordedExactly(t, k, Approve, Actor(Some(u), false), later);
    DecisionIsRecordedExactly(t, k, TakeAway, Actor(Some(u), false), later);
  }

  /** Item k went from undecided to decided, by the actor and at the time of the call; approving left the assignments
      alone, revoking left a final one. */
  predicate DecidedItem(s: Store, t: Store, k: ItemId, verdict: Verdict, actor: Actor, now: int) {
    && k < |s.items| <= |t.items| && s.items[k].decision.Pending?
    && t.items[k] == s.items[k].(decision := if verdict.Approve? then Approved else Revoked,
                                 decidedBy := actor.id, decidedAt := Some(now))
    && (forall l :: 0 <= l < |s.items| && l != k ==> t.items[l] == s.items[l])
    && (verdict.Approve? ==> t.assignments == s.assignments)
    && (verdict.TakeAway? ==>
          s.items[k].assignment < |t.assignments| && t.assignments[s.items[k].assignment].status.Final())
  }

  /** A decision that is recorded changes one item. Any other changes nothing at all, so a failed revoke leaves the item
      pending. */
  lemma DecideChangesOneItem(s: Store, k: ItemId, verdict: Verdict, actor: Actor, env: Env)
    requires WellFormed(s)
    ensures var r := Decide(s, k, verdict, actor, env);
            if Recorded(r) then DecidedItem(s, r.s, k, verdict, actor, env.now) else r.s == s
  {
    hide RowShape, PeopleExist, CloseWhenDone, Closes;
    if Recorded(Decide(s, k, verdict, actor, env)) {
      var c := s.items[k].campaign;
      var s1 := if verdict.TakeAway? then Revoke(s, s.items[k].assignment, env).0 else s;
      var decider := Authorize(s.campaigns[c], actor, env.now).value;
      ClosingAddsRowsOnly(RecordDecision(s1, k, verdict, decider, env), c, env);
    }
  }

  /** A decision completes the campaign exactly when it decides the last undecided item. It is then reported as an error
      although everything was recorded and closed, exactly when the next cycle cannot be dated. */
  lemma LastDecisionClosesExactly(s: Store, k: ItemId, verdict: Verdict, actor: Actor, env: Env)
    requires Inv(s) && Recorded(Decide(s, k, verdict, actor, env))
    ensures var t := Decide(s, k, verdict, actor, env).s;
            && k < |s.items| && s.items[k].campaign < |t.campaigns|
            && (Decide(s, k, verdict, actor, env).result.Failure? <==>
                  && t.campaigns[s.items[k].campaign].status.Completed?
                  && RepeatsPastCalendar(s.campaigns[s.items[k].campaign], env.now))
            && s.campaigns[s.items[k].campaign].status.Active?
            && (t.campaigns[s.items[k].campaign].status.Completed? <==>
                  forall l :: 0 <= l < |s.items| && l != k && s.items[l].campaign == s.items[k].campaign ==>
                    !s.items[l].decision.Pending?)
  {
    hide RowShape, PeopleExist, Chained, Live, CloseWhenDone, Closes, Authorize;
    var c := s.items[k].campaign;
    AuthorizedExactly(s.campaigns[c], actor, env.now);
    var s1 := if verdict.TakeAway? then Revoke(s, s.items[k].assignment, env).0 else s;
    var decider := Authorize(s.campaigns[c], actor, env.now).value;
    var s2 := RecordDecision(s1, k, verdict, decider, env);
    ClosesExactlyWhenNothingIsPending(s2, c, env);
    if HasPending(s2.items, c) {
      var l :| 0 <= l < |s2.items| && s2.items[l].campaign == c && s2.items[l].decision.Pending?;
      assert l != k && s.items[l].decision.Pending?;
    }
    if l: nat :| l < |s.items| && l != k && s.items[l].campaign == c && s.items[l].decision.Pending? {
      assert s2.items[l] == s.items[l];
    }
  }

  lemma ClosesExactlyWhenNothingIsPending(s: Store, c: CampaignId, env: Env)
    requires WellFormed(s) && c < |s.campaigns| && s.campaigns[c].status.Active?
    ensures var t := CloseWhenDone(s, c, env);
            && c < |t.campaigns| && (t.campaigns[c].status.Completed? <==> !HasPending(s.items, c))
            && (Closes(s, c) <==> !HasPending(s.items, c))
  {
    hide RowShape, PeopleExist, Count, HasPending, Matching, MissingReference, ValidForm;
    CountsTellPending(s.items, c);
    var t := Finish(s, c, env);
    if t.campaigns[c].frequencyDays.Some? {
      RecurrenceFormValidExactly(t.campaigns[c], env.now);
    }
  }

  /** Completing a campaign and starting the next one never touches assignments or existing items. */
  lemma ClosingAddsRowsOnly(s: Store, c: CampaignId, env: Env)
    requires WellFormed(s) && c < |s.campaigns|
    ensures var t := CloseWhenDone(s, c, env); t.assignments == s.assignments && s.items <= t.items
    ensures var t := Spawn(s, c, env); t.assignments == s.assignments && s.items <= t.items
  {
    hide RowShape, PeopleExist, ValidForm, NewRow, Matching, MissingReference, Count;
    var t := Finish(s, c, env);
    if s.campaigns[c].frequencyDays.Some? {
      RecurrenceFormValidExactly(s.campaigns[c], env.now);
    }
    if t.campaigns[c].frequencyDays.Some? {
      RecurrenceFormValidExactly(t.campaigns[c], env.now);
    }
  }

  // ----- closing without a decision

  /** What revoking item k's access takes down if the directory is asked: the access and what it cascades to, or
      nothing when the directory refuses. */
  function Taken(s: Store, k: ItemId, env: Env): set<AssignmentId>
    requires k < |s.items|
  {
    match env.revoke(s.items[k].assignment)
    case Refuses => {}
    case Removed(cascade) => {s.items[k].assignment} + cascade
  }

  predicate InTables(s: Store, ids: seq<ItemId>) {
    forall j :: 0 <= j < |ids| ==> ids[j] < |s.items| && s.items[ids[j]].assignment < |s.assignments|
  }

  /** When the items ids are closed in order, the directory is asked for the j-th: its access is not final, neither
      from before nor because an earlier revoke took it down. */
  ghost predicate IsAsked(s: Store, ids: seq<ItemId>, j: nat, env: Env)
    requires InTables(s, ids) && j < |ids|
    decreases j
  {
    var a := s.items[ids[j]].assignment;
    && !s.assignments[a].status.Final()
    && forall i: nat :: i < j && IsAsked(s, ids, i, env) ==> a !in Taken(s, ids[i], env)
  }

  /** Some revoke among the first n that the directory is asked for takes a down. */
  ghost predicate TakenDown(s: Store, ids: seq<ItemId>, n: nat, a: AssignmentId, env: Env)
    requires InTables(s, ids) && n <= |ids|
  {
    exists j: nat :: j < n && IsAsked(s, ids, j, env) && a in Taken(s, ids[j], env)
  }

  lemma {:induction false} CloseItemsAppend(s: Store, ids: seq<ItemId>, k: ItemId, keep: NoResponse, env: Env)
    requires WellFormed(s) && k < |s.items| && forall j :: 0 <= j < |ids| ==> ids[j] < |s.items|
    ensures CloseItems(s, ids + [k], keep, env) == CloseItem(CloseItems(s, ids, keep, env), k, keep, env)
    decreases |ids|
  {
    hide RowShape, PeopleExist, CloseItem;
    if ids == [] {
      assert [k][1..] == [];
    } else {
      assert (ids + [k])[1..] == ids[1..] + [k];
      CloseItemsAppend(CloseItem(s, ids[0], keep, env), ids[1..], k, keep, env);
    }
  }

  /** Exactly which access is final after the first n of some items were closed by revoking. */
  lemma {:induction false} CloseItemsRevokesExactly(s: Store, ids: seq<ItemId>, n: nat, a: AssignmentId, env: Env)
    requires WellFormed(s) && InTables(s, ids) && n <= |ids| && a < |s.assignments|
    ensures var t := CloseItems(s, ids[..n], RevokeAccess, env);
            && |t.assignments| == |s.assignments|
            && (forall k :: 0 <= k < |s.items| ==> t.items[k].assignment == s.items[k].assignment)
            && (t.assignments[a].status.Final() <==> s.assignments[a].status.Final() || TakenDown(s, ids, n, a, env))
    decreases n
  {
    hide RowShape, PeopleExist, CloseItem, IsAsked, Taken;
    if n == 0 {
      assert ids[..0] == [];
    } else {
      var k := ids[n - 1];
      var b := s.items[k].assignment;
      var t := CloseItems(s, ids[..n - 1], RevokeAccess, env);
      assert ids[..n] == ids[..n - 1] + [k];
      CloseItemsAppend(s, ids[..n - 1], k, RevokeAccess, env);
      CloseItemsRevokesExactly(s, ids, n - 1, a, env);
      CloseItemsRevokesExactly(s, ids, n - 1, b, env);
      IsAskedExactly(s, ids, n - 1, env);
      CloseItemTakes(s, t, k, a, env);
      hide CloseItems;
      assert TakenDown(s, ids, n, a, env)
             <==> TakenDown(s, ids, n - 1, a, env) || (IsAsked(s, ids, n - 1, env) && a in Taken(s, k, env));
    }
  }

  lemma IsAskedExactly(s: Store, ids: seq<ItemId>, j: nat, env: Env)
    requires InTables(s, ids) && j < |ids|
    ensures var a := s.items[ids[j]].assignment;
            IsAsked(s, ids, j, env) <==> !s.assignments[a].status.Final() && !TakenDown(s, ids, j, a, env)
  {
  }

  /** Closing one item takes down what it takes exactly when its own access is not final yet. */
  lemma CloseItemTakes(s: Store, t: Store, k: ItemId, a: AssignmentId, env: Env)
    requires WellFormed(t) && k < |s.items| == |t.items| && t.items[k].assignment == s.items[k].assignment
    requires a < |t.assignments|
    ensures var u := CloseItem(t, k, RevokeAccess, env);
            && |u.assignments| == |t.assignments|
            && (forall l :: 0 <= l < |t.items| ==> u.items[l].assignment == t.items[l].assignment)
            && (u.assignments[a].status.Final() <==>
                  || t.assignments[a].status.Final()
                  || (!t.assignments[t.items[k].assignment].status.Final() && a in Taken(s, k, env)))
  {
    hide RowShape, PeopleExist;
  }

  /** Closing a campaign by force decides every undecided item: APPROVED, with every assignment left alone, when the
      campaign keeps access nobody objected to; otherwise AUTO_REVOKED. The access of an AUTO_REVOKED item is final
      then if it was before or the directory does not refuse to remove it. A refusal is swallowed, so otherwise it is
      final exactly when the revoke of another undecided item takes it down. */
  lemma ClosingDecidesEverything(s: Store, c: CampaignId, k: ItemId, env: Env)
    requires Inv(s) && c < |s.campaigns| && s.campaigns[c].status.Active?
    requires k < |s.items| && s.items[k].campaign == c && s.items[k].decision.Pending?
    ensures var t := Complete(s, c, env).s; var a := s.items[k].assignment;
            && k < |t.items| && a < |t.assignments|
            && t.items[k] == s.items[k].(decidedAt := Some(env.now),
                                         decision := if s.campaigns[c].onNoResponse.KeepAccess? then Approved
                                                     else AutoRevoked)
            && (s.campaigns[c].onNoResponse.KeepAccess? ==> t.assignments == s.assignments)
            && (s.campaigns[c].onNoResponse.RevokeAccess? ==>
                  var ids := PendingBelow(s.items, c, |s.items|);
                  && InTables(s, ids)
                  && (s.assignments[a].status.Final() || env.revoke(a).Removed? ==> t.assignments[a].status.Final())
                  && (t.assignments[a].status.Final()
                      <==> s.assignments[a].status.Final() || TakenDown(s, ids, |ids|, a, env)))
  {
    ForcedClosing(s, c, env);
    hide RowShape, PeopleExist, Core, Complete, CloseItems, PendingBelow, IsAsked, TakenDown;
    var ids := PendingBelow(s.items, c, |s.items|);
    PendingBelowExact(s.items, c, |s.items|);
    var j :| 0 <= j < |ids| && ids[j] == k;
    if s.campaigns[c].onNoResponse.KeepAccess? {
      KeepingLeavesAssignments(s, ids, env);
    } else {
      ClosedAccessExactly(s, ids, j, env);
    }
  }

  /** Completing a campaign closes its undecided items, and leaves them and the assignments alone after that. */
  lemma ForcedClosing(s: Store, c: CampaignId, env: Env)
    requires Inv(s) && c < |s.campaigns| && s.campaigns[c].status.Active?
    ensures var ids := PendingBelow(s.items, c, |s.items|); var keep := s.campaigns[c].onNoResponse;
            var t := Complete(s, c, env).s;
            && InTables(s, ids) && |s.items| <= |t.items|
            && t.assignments == CloseItems(s, ids, keep, env).assignments
            && (forall k :: k in ids ==> t.items[k] == ClosedItem(s.items[k], keep, env.now))
            && (forall k :: 0 <= k < |s.items| && k !in ids ==> t.items[k] == s.items[k])
            && (forall k :: 0 <= k < |s.items| ==>
                  (k in ids <==> s.items[k].campaign == c && s.items[k].decision.Pending?))
  {
    hide RowShape, PeopleExist, Chained, Settled, Live, Spawn, Evolves;
    var ids := PendingBelow(s.items, c, |s.items|);
    var keep := s.campaigns[c].onNoResponse;
    PendingBelowExact(s.items, c, |s.items|);
    CloseItemsDecides(s, c, ids, keep, env);
    var t1 := CloseItems(s, ids, keep, env);
    assert InTables(s, ids) && Complete(s, c, env).s == Spawn(Finish(t1, c, env), c, env);
    hide CloseItems, PendingBelow, Core, PendingIn, Complete, CloseCampaign;
    ClosingAddsRowsOnly(Finish(t1, c, env), c, env);
  }

  lemma ClosedAccessExactly(s: Store, ids: seq<ItemId>, j: nat, env: Env)
    requires WellFormed(s) && InTables(s, ids) && j < |ids|
    ensures var t := CloseItems(s, ids, RevokeAccess, env); var a := s.items[ids[j]].assignment;
            && |t.assignments| == |s.assignments|
            && (s.assignments[a].status.Final() || env.revoke(a).Removed? ==> t.assignments[a].status.Final())
            && (t.assignments[a].status.Final()
                <==> s.assignments[a].status.Final() || TakenDown(s, ids, |ids|, a, env))
  {
    hide RowShape, PeopleExist, IsAsked, TakenDown, CloseItems;
    assert ids[..|ids|] == ids;
    CloseItemsRevokesExactly(s, ids, |ids|, s.items[ids[j]].assignment, env);
    IsAskedExactly(s, ids, j, env);
    TakenDownStays(s, ids, j, s.items[ids[j]].assignment, env);
  }

  lemma TakenDownStays(s: Store, ids: seq<ItemId>, j: nat, a: AssignmentId, env: Env)
    requires InTables(s, ids) && j < |ids|
    ensures TakenDown(s, ids, j, a, env) ==> TakenDown(s, ids, |ids|, a, env)
    ensures IsAsked(s, ids, j, env) && a in Taken(s, ids[j], env) ==> TakenDown(s, ids, |ids|, a, env)
  {
    hide IsAsked;
  }

  lemma {:induction false} KeepingLeavesAssignments(s: Store, ids: seq<ItemId>, env: Env)
    requires WellFormed(s) && forall j :: 0 <= j < |ids| ==> ids[j] < |s.items|
    ensures CloseItems(s, ids, KeepAccess, env).assignments == s.assignments
    decreases |ids|
  {
    hide RowShape, PeopleExist;
    if ids != [] {
      KeepingLeavesAssignments(CloseItem(s, ids[0], KeepAccess, env), ids[1..], env);
    }
  }
}
